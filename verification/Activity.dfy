/** The activity tracker as the object the source has: fields updated in place by loops
    (dex/activity.go, dex/activity_state.go). Each method is tied to the function of
    ActivitySpec or ActivityRestore that says what it does to the fields. */
module Activity {
  import opened Words
  import opened Dex
  import opened ActivityLists
  import opened ActivityReports
  import opened ActivityRestore
  import opened ActivitySpec

  function Put(m: SwapMap, key: string, left: seq<SwapTransition>): SwapMap {
    if left == [] then m - {key} else m[key := left]
  }

  /** A map on its way from one to another, with some keys still to do. */
  ghost predicate Partly(before: SwapMap, after: SwapMap, m: SwapMap, keys: set<string>) {
    && (forall k :: k in m ==> k in before && m[k] == if k in keys then before[k] else At(after, k))
    && (forall k :: k in keys && k in before ==> k in m)
    && (forall k :: k in before && k !in keys ==> (k in m <==> k in after))
    && (forall k :: k in after ==> k in before)
  }

  lemma PartlyNext(before: SwapMap, after: SwapMap, m: SwapMap, keys: set<string>, key: string, left: seq<SwapTransition>)
    requires Partly(before, after, m, keys) && key in keys && key in before
    requires At(after, key) == left && (key in after <==> left != [])
    ensures Partly(before, after, Put(m, key, left), keys - {key})
  {
  }

  lemma PartlyDone(before: SwapMap, after: SwapMap, m: SwapMap)
    requires Partly(before, after, m, {})
    ensures m == after
  {
    forall k | k in m ensures k in after && m[k] == after[k] {
      assert k in before && k !in {};
    }
    forall k | k in after ensures k in m {
      assert k in before && k !in {};
    }
  }

  /** Swaps of one pool beside those of others. */
  lemma JoinDistinct(all: seq<SwapTransition>, own: seq<SwapTransition>, key: string)
    requires DistinctIdentities(all) && DistinctIdentities(own)
    requires (forall i :: 0 <= i < |own| ==> own[i].Key() == key) && forall i :: 0 <= i < |all| ==> all[i].Key() != key
    ensures DistinctIdentities(all + own)
  {
    var both := all + own;
    forall i, j | 0 <= i < j < |both| ensures both[i].Identity() != both[j].Identity() {
      if i < |all| <= j {
        assert both[i].Key() != both[j].Key();
      }
    }
  }

  class ActivityTracker {
    var windowSlots: uint64
    var latestSlot: uint64
    var swaps: SwapMap

    function State(): Tracker
      reads this
    {
      Tracker(windowSlots, latestSlot, swaps)
    }

    constructor (windowSlots: uint64)
      ensures State() == Tracker(windowSlots, 0, map[])
    {
      this.windowSlots, latestSlot, swaps := windowSlots, 0, map[];
    }

    static method NewActivityTracker(windowSlots: uint64) returns (r: Result<ActivityTracker, ActivityError>)
      ensures r.Ok? <==> windowSlots != 0
      ensures r.Ok? ==> fresh(r.value) && r.value.State() == Tracker(windowSlots, 0, map[])
    {
      if windowSlots == 0 {
        return Err(ErrInvalidActivityWindow);
      }
      var t := new ActivityTracker(windowSlots);
      return Ok(t);
    }

    static method FirstKept(own: seq<SwapTransition>, cutoff: uint64) returns (first: nat)
      ensures first <= |own| && own[first..] == FromCutoff(own, cutoff)
    {
      first := 0;
      while first < |own| && own[first].slot < cutoff
        invariant first <= |own|
        invariant FromCutoff(own[first..], cutoff) == FromCutoff(own, cutoff)
      {
        first := first + 1;
      }
    }

    static method CountKept(own: seq<SwapTransition>, slot: uint64) returns (keep: nat)
      ensures keep <= |own| && own[..keep] == BeforeSlot(own, slot)
    {
      keep := |own|;
      assert own[..keep] == own;
      while keep > 0 && own[keep - 1].slot >= slot
        invariant keep <= |own|
        invariant BeforeSlot(own[..keep], slot) == BeforeSlot(own, slot)
      {
        assert own[..keep][..keep - 1] == own[..keep - 1];
        keep := keep - 1;
      }
    }

    method Prune(atSlot: uint64)
      modifies this`swaps
      ensures swaps == Pruned(old(swaps), Cutoff(atSlot, windowSlots))
    {
      var cutoff := 0;
      if atSlot > windowSlots {
        cutoff := atSlot - windowSlots;
      }
      ghost var before, after := swaps, Pruned(swaps, cutoff);
      var keys := swaps.Keys;
      while keys != {}
        invariant keys <= before.Keys && Partly(before, after, swaps, keys)
        decreases keys
      {
        var key :| key in keys;
        var own := swaps[key];
        var first := FirstKept(own, cutoff);
        PartlyNext(before, after, swaps, keys, key, own[first..]);
        if first == |own| {
          swaps := swaps - {key};
        } else if first > 0 {
          swaps := swaps[key := own[first..]];
        } else {
          assert own[first..] == own && swaps[key := own] == swaps;
        }
        keys := keys - {key};
      }
      PartlyDone(before, after, swaps);
    }

    method Observe(previous: Option<PoolState>, current: Option<PoolState>)
      returns (r: Result<bool, ActivityError>)
      modifies this`latestSlot, this`swaps
      ensures var o := ActivitySpec.Observe(old(State()), previous, current);
              && State() == o.tracker
              && r == match o.result case Ok(recorded) => Ok(recorded.Some?) case Err(e) => Err(e)
    {
      if current.None? || current.value.fromMempool {
        return Ok(false);
      }
      if current.value.slot < latestSlot {
        return Err(ErrOutOfOrderActivity);
      }
      var inference := InferSwapTransition(previous, current);
      if inference.Mismatch? {
        return Err(ErrMismatchedPoolTransition);
      }
      latestSlot := current.value.slot;
      Prune(current.value.slot);
      if inference.NotSwap? {
        return Ok(false);
      }
      var key := current.value.Key();
      swaps := swaps[key := At(swaps, key) + [inference.swap]];
      return Ok(true);
    }

    /** Returns the newly recorded swap; a redelivered one is accepted without being recorded. */
    method ObserveTransition(previous: Option<PoolState>, current: Option<PoolState>)
      returns (r: Result<Option<SwapTransition>, ActivityError>)
      modifies this`latestSlot, this`swaps
      ensures ActivitySpec.ObserveTransition(old(State()), previous, current) == Observed(State(), r)
    {
      if current.None? || current.value.fromMempool {
        return Ok(None);
      }
      if current.value.slot < latestSlot {
        return Err(ErrOutOfOrderActivity);
      }
      var inference := InferSwapTransition(previous, current);
      if inference.Mismatch? {
        return Err(ErrMismatchedPoolTransition);
      }
      var key := current.value.Key();
      var duplicate := false;
      if inference.Swap? {
        var own := At(swaps, key);
        var i := 0;
        while i < |own|
          invariant i <= |own| && !duplicate
          invariant FirstWithIdentity(own, inference.swap) == FirstWithIdentity(own[i..], inference.swap)
        {
          if own[i].slot != inference.swap.slot || own[i].Identity() != inference.swap.Identity() {
            i := i + 1;
            continue;
          }
          if own[i] != inference.swap {
            return Err(ErrInvalidActivityState);
          }
          duplicate := true;
          break;
        }
      }
      latestSlot := current.value.slot;
      Prune(current.value.slot);
      if inference.NotSwap? || duplicate {
        return Ok(None);
      }
      swaps := swaps[key := At(swaps, key) + [inference.swap]];
      return Ok(Some(inference.swap));
    }

    method Volume(network: string, protocol: string, poolId: string, atSlot: uint64) returns (r: VolumeResult)
      ensures r == VolumeAt(State(), PoolKey(network, protocol, poolId), atSlot)
      ensures VolumeAnswers(r, State(), PoolKey(network, protocol, poolId), atSlot)
    {
      VolumeReports(State(), PoolKey(network, protocol, poolId), atSlot);
      if atSlot < latestSlot {
        return Err(ErrOutOfOrderActivity);
      }
      var own := At(swaps, PoolKey(network, protocol, poolId));
      var cutoff := 0;
      if atSlot > windowSlots {
        cutoff := atSlot - windowSlots;
      }
      r := Accumulate(own, cutoff);
    }

    static method Accumulate(own: seq<SwapTransition>, cutoff: uint64) returns (r: VolumeResult)
      ensures r == TurnoverOf(Since(own, cutoff))
    {
      var volumeX, volumeY, swapCount, first, last := 0, 0, 0, 0, 0;
      ghost var seen: seq<SwapTransition> := [];
      var i := 0;
      while i < |own|
        invariant i <= |own|
        invariant seen == Since(own[..i], cutoff)
        invariant volumeX == SumX(seen) <= MAX_UINT64
        invariant volumeY == SumY(seen) <= MAX_UINT64
        invariant swapCount == |seen| <= MAX_UINT64
        invariant 0 <= first <= MAX_UINT64 && 0 <= last <= MAX_UINT64
        invariant seen != [] ==> first == seen[0].slot && last == seen[|seen| - 1].slot
      {
        var swap := own[i];
        ScanNext(own, i, cutoff);
        if swap.slot < cutoff {
          i := i + 1;
          continue;
        }
        if MAX_UINT64 - volumeX < swap.amountX || MAX_UINT64 - volumeY < swap.amountY || swapCount == MAX_UINT64 {
          OverflowStays(own, i + 1, cutoff);
          return Err(ErrVolumeOverflow);
        }
        if swapCount == 0 {
          first := swap.slot;
        }
        volumeX := volumeX + swap.amountX;
        volumeY := volumeY + swap.amountY;
        swapCount := swapCount + 1;
        last := swap.slot;
        seen := seen + [swap];
        i := i + 1;
      }
      assert own[..i] == own;
      if swapCount == 0 {
        return Ok(None);
      }
      return Ok(Some(Turnover(volumeX, volumeY, swapCount, first, last)));
    }

    method Rollback(slot: uint64)
      modifies this`latestSlot, this`swaps
      ensures State() == ActivitySpec.Rollback(old(State()), slot)
    {
      DropFrom(slot);
      var latest := 0;
      if slot > 0 {
        latest := slot - 1;
      }
      if latest < latestSlot {
        latestSlot := latest;
      }
      Prune(latestSlot);
    }

    method DropFrom(slot: uint64)
      modifies this`swaps
      ensures swaps == RolledBack(old(swaps), slot)
    {
      ghost var before, after := swaps, RolledBack(swaps, slot);
      var keys := swaps.Keys;
      while keys != {}
        invariant keys <= before.Keys && Partly(before, after, swaps, keys)
        decreases keys
      {
        var key :| key in keys;
        var own := swaps[key];
        var keep := CountKept(own, slot);
        PartlyNext(before, after, swaps, keys, key, own[..keep]);
        if keep == 0 {
          swaps := swaps - {key};
        } else {
          swaps := swaps[key := own[..keep]];
        }
        keys := keys - {key};
      }
      PartlyDone(before, after, swaps);
    }

    /** All retained swaps in the canonical order. */
    method Snapshot() returns (state: ActivityState)
      requires TrackerOk(State())
      ensures IsSnapshot(State(), state) && SwapSorted(state.swaps)
    {
      var all: seq<SwapTransition> := [];
      var keys := swaps.Keys;
      while keys != {}
        invariant keys <= swaps.Keys
        invariant DistinctIdentities(all)
        invariant forall e :: e in all <==> e in At(swaps, e.Key()) && e.Key() !in keys
        decreases keys
      {
        var key :| key in keys;
        ghost var own := swaps[key];
        assert ListOk(At(State().swaps, key), key, Cutoff(latestSlot, windowSlots), latestSlot);
        assert forall i :: 0 <= i < |all| ==> all[i] in all;
        JoinDistinct(all, own, key);
        all := all + swaps[key];
        keys := keys - {key};
      }
      state := ActivityState(windowSlots, latestSlot, Sorted(all));
      SortedProperties(all);
      DistinctOfPermutation(all, state.swaps);
      forall e ensures e in state.swaps <==> e in all {
        assert e in multiset(state.swaps) <==> e in multiset(all);
      }
    }

    /** The lists of a sorted sequence by pool, unless a swap repeats the identity of the one
        before it in its list. */
    static method GroupByPool(sorted: seq<SwapTransition>) returns (r: Option<SwapMap>)
      requires SwapSorted(sorted)
      ensures r == if DistinctIdentities(sorted) then Some(Grouped(sorted)) else None
    {
      var restored: SwapMap := map[];
      var i := 0;
      while i < |sorted|
        invariant i <= |sorted|
        invariant restored == Grouped(sorted[..i])
        invariant DistinctIdentities(sorted[..i])
      {
        var swap := sorted[i];
        var poolSwaps := At(restored, swap.Key());
        GroupStep(sorted, i, restored, poolSwaps);
        if |poolSwaps| > 0 && poolSwaps[|poolSwaps| - 1].Identity() == swap.Identity() {
          return None;
        }
        restored := restored[swap.Key() := poolSwaps + [swap]];
        i := i + 1;
      }
      assert sorted[..i] == sorted;
      return Some(restored);
    }

    method Restore(state: ActivityState) returns (r: Result<(), ActivityError>)
      modifies this`latestSlot, this`swaps
      ensures match Restored(old(State()), state)
              case Ok(t) => r == Ok(()) && State() == t
              case Err(e) => r == Err(e) && State() == old(State())
    {
      if state.window == 0 {
        return Err(ErrInvalidActivityState);
      }
      if state.window != windowSlots {
        return Err(ErrActivityWindowChanged);
      }
      var valid := Validated(state);
      if !valid {
        return Err(ErrInvalidActivityState);
      }
      var grouped := RestorableLists(state.swaps);
      if grouped.None? {
        return Err(ErrInvalidActivityState);
      }
      latestSlot := state.latest;
      swaps := grouped.value;
      Prune(state.latest);
      return Ok(());
    }

    static method Validated(state: ActivityState) returns (ok: bool)
      ensures ok <==> AllValid(state.swaps, state.latest)
    {
      for i := 0 to |state.swaps|
        invariant forall j :: 0 <= j < i ==> ValidSwap(state.swaps[j], state.latest)
      {
        if !ValidSwap(state.swaps[i], state.latest) {
          return false;
        }
      }
      return true;
    }

    static method RestorableLists(swaps: seq<SwapTransition>) returns (r: Option<SwapMap>)
      ensures r == if DistinctIdentities(swaps) then Some(Grouped(Sorted(swaps))) else None
    {
      SortedProperties(swaps);
      r := GroupByPool(Sorted(swaps));
      if DistinctIdentities(swaps) {
        DistinctOfPermutation(swaps, Sorted(swaps));
      } else if DistinctIdentities(Sorted(swaps)) {
        DistinctOfPermutation(Sorted(swaps), swaps);
      }
    }
  }
}
