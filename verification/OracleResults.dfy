/** What holds in every world of every run of the oracle: its view agrees with the chain, its
    disk can always be restored, and a restart does not change the reported volumes. */
module OracleResults {
  import opened Words
  import opened Dex
  import opened ActivityLists
  import opened ActivityRestore
  import opened ActivitySpec
  import opened ActivityStore
  import opened OracleRuns

  /** The swap moved the reserves of two consecutive on-chain states of its pool. */
  ghost predicate ConsecutiveOnChain(chain: seq<PoolState>, swap: SwapTransition) {
    exists j :: 0 <= j < |chain| && LastOf(chain[..j], chain[j].poolId).Some?
                && Explains(swap, LastOf(chain[..j], chain[j].poolId).value, chain[j])
  }

  /** Every tracked pool, in memory and on disk, is the pool's last state on the current chain. */
  lemma TrackedPoolsAreLastOnChain(worlds: seq<World>, events: seq<Event>, window: uint64)
    requires IsRun(worlds, events, window)
    ensures var w := worlds[|events|];
            && (forall p :: p in w.m.pools ==> LastOf(w.chain, p) == Some(w.m.pools[p]))
            && (forall k :: k in w.m.disk.pools ==> LastOf(w.chain, w.m.disk.pools[k].poolId) == Some(w.m.disk.pools[k]))
  {
    RunsOk(worlds, events, window);
  }

  /** Every retained swap is the exact reserve difference of two consecutive on-chain states of its
      pool, and no swap identity is retained twice, in memory or on disk. */
  lemma RetainedSwapsAreOnChain(worlds: seq<World>, events: seq<Event>, window: uint64, swap: SwapTransition)
    requires IsRun(worlds, events, window)
    ensures var w := worlds[|events|];
            && (swap in At(w.m.tracker.swaps, swap.Key()) || Stored(w.m.disk, swap) ==> ConsecutiveOnChain(w.chain, swap))
            && DistinctIdentities(At(w.m.tracker.swaps, swap.Key()))
            && (forall other :: Stored(w.m.disk, swap) && Stored(w.m.disk, other) && swap.Identity() == other.Identity() ==> swap == other)
  {
    RunsOk(worlds, events, window);
    var w := worlds[|events|];
    assert ListOk(At(w.m.tracker.swaps, swap.Key()), swap.Key(), Cutoff(w.m.tracker.latest, window), w.m.tracker.latest);
    if swap in At(w.m.tracker.swaps, swap.Key()) || Stored(w.m.disk, swap) {
      assert swap in InMemory(w.m.tracker) || swap in OnDisk(w.m.disk);
      var j := ChainSwapNamed(w.chain, swap);
      InferenceIsExact(LastOf(w.chain[..j], w.chain[j].poolId).value, w.chain[j], swap);
    }
    forall other | Stored(w.m.disk, swap) && Stored(w.m.disk, other) && swap.Identity() == other.Identity()
      ensures swap == other
    {
      KeyOfIdentity(swap, other);
    }
  }

  /** In every world that awaits a delivery, an in-order one is accepted. */
  lemma InOrderDeliveriesAccepted(worlds: seq<World>, events: seq<Event>, window: uint64, state: PoolState)
    requires IsRun(worlds, events, window)
    requires var w := worlds[|events|]; state.slot >= w.floor && ChainOk(w.chain + [state])
    ensures var w := worlds[|events|];
            ObserveTransition(w.m.tracker, Tracked(w.m.pools, state.poolId), Some(state)).result.Ok?
  {
    RunsOk(worlds, events, window);
    DeliveryAccepted(worlds[|events|], state);
  }

  /** A world with a pending rollback has just been restarted: memory is what was loaded from the
      disk as it stands. */
  lemma PendingIsRestarted(worlds: seq<World>, events: seq<Event>, window: uint64)
    requires IsRun(worlds, events, window) && worlds[|events|].bound < NO_BOUND
    ensures Restarted(worlds[|events|].m.disk, window, worlds[|events|].m)
  {
    var n := |events|;
    if n > 0 {
      assert Step(worlds[n - 1], events[n - 1], worlds[n]);
      RunsOk(worlds[..n], events[..n - 1], window);
    }
  }

  /** Two trackers restored from the same disk answer every query alike, refusals included. */
  lemma SameDiskSameVolume(disk: Disk, t: Tracker, u: Tracker, key: string, atSlot: uint64)
    requires TrackerOk(t) && TrackerOk(u) && t.window == u.window && t.latest == u.latest
    requires forall x :: x in InMemory(t) <==> Stored(disk, x) && x.slot >= Cutoff(t.latest, t.window)
    requires forall x :: x in InMemory(u) <==> Stored(disk, x) && x.slot >= Cutoff(u.latest, u.window)
    ensures VolumeAt(t, key, atSlot) == VolumeAt(u, key, atSlot)
  {
    if atSlot >= t.latest {
      AgreeingTrackers(t, u, key, atSlot);
    }
  }

  /** While a rollback is pending a restart gives the same answer to every query. */
  lemma PendingAgrees(worlds: seq<World>, events: seq<Event>, window: uint64, state: ActivityState,
                      key: string, atSlot: uint64)
    requires IsRun(worlds, events, window) && worlds[|events|].bound < NO_BOUND
    requires LoadedFrom(worlds[|events|].m.disk, state) && state.window != 0
    ensures var restored := Restored(Tracker(window, 0, map[]), state);
      restored.Ok? && VolumeAt(restored.value, key, atSlot) == VolumeAt(worlds[|events|].m.tracker, key, atSlot)
  {
    RunsOk(worlds, events, window);
    PendingIsRestarted(worlds, events, window);
    var w := worlds[|events|];
    RestartedTracker(w.m.disk, window, w.m);
    LoadedRestores(w.m.disk, state, Tracker(window, 0, map[]));
    var t := Restored(Tracker(window, 0, map[]), state).value;
    RestoredHolds(w.m.disk, window, state, t);
    SameDiskSameVolume(w.m.disk, t, w.m.tracker, key, atSlot);
  }

  /** Whenever the process stops, even between the batches of a rollback, what is loaded from disk
      can be restored, and the restored tracker answers every query at or above the highest slot ever
      observed as the running one does; while a rollback is pending, every query at all. */
  lemma RestartAgrees(worlds: seq<World>, events: seq<Event>, window: uint64, state: ActivityState, key: string, atSlot: uint64)
    requires IsRun(worlds, events, window)
    requires LoadedFrom(worlds[|events|].m.disk, state) && state.window != 0
    ensures var w := worlds[|events|];
            var restored := Restored(Tracker(window, 0, map[]), state);
            && restored.Ok?
            && (atSlot >= w.high || w.bound < NO_BOUND ==>
                  VolumeAt(restored.value, key, atSlot) == VolumeAt(w.m.tracker, key, atSlot))
  {
    RunsOk(worlds, events, window);
    var w := worlds[|events|];
    if w.bound < NO_BOUND {
      PendingAgrees(worlds, events, window, state, key, atSlot);
    } else {
      LoadedRestores(w.m.disk, state, Tracker(window, 0, map[]));
      var t := Restored(Tracker(window, 0, map[]), state).value;
      RestoredHolds(w.m.disk, window, state, t);
      if atSlot >= w.high {
        SameVolume(w, t, key, atSlot);
      }
    }
  }

  lemma SameVolume(w: World, t: Tracker, key: string, atSlot: uint64)
    requires WorldOk(w) && w.bound == NO_BOUND && atSlot >= w.high
    requires TrackerOk(t) && t.window == w.m.tracker.window && t.latest <= w.high
    requires forall x :: x in InMemory(t) <==> Stored(w.m.disk, x) && x.slot >= Cutoff(t.latest, t.window)
    ensures VolumeAt(t, key, atSlot) == VolumeAt(w.m.tracker, key, atSlot)
  {
    var c := Cutoff(atSlot, t.window);
    assert Cutoff(w.high, t.window) <= c && Cutoff(t.latest, t.window) <= c;
    forall x: SwapTransition | x.slot >= c ensures x in InMemory(t) <==> x in InMemory(w.m.tracker) {
      RetainedIff(w, x);
    }
    AgreeingTrackers(t, w.m.tracker, key, atSlot);
  }

  /** Trackers that agree on the swaps of a window report the same volume for it. */
  lemma AgreeingTrackers(t: Tracker, u: Tracker, key: string, atSlot: uint64)
    requires TrackerOk(t) && TrackerOk(u) && t.window == u.window && atSlot >= t.latest && atSlot >= u.latest
    requires forall x: SwapTransition :: x.slot >= Cutoff(atSlot, t.window) ==> (x in InMemory(t) <==> x in InMemory(u))
    ensures VolumeAt(t, key, atSlot) == VolumeAt(u, key, atSlot)
  {
    var c := Cutoff(atSlot, t.window);
    var a, b := At(t.swaps, key), At(u.swaps, key);
    assert ListOk(a, key, Cutoff(t.latest, t.window), t.latest);
    assert ListOk(b, key, Cutoff(u.latest, t.window), u.latest);
    forall x: SwapTransition | x.slot >= c ensures x in a <==> x in b {
      assert x in a ==> x.Key() == key && x in InMemory(t);
      assert x in b ==> x.Key() == key && x in InMemory(u);
    }
    TurnoverOfSameWindow(a, b, c);
  }

  // ----- runs without rollbacks -----

  /** The tracker and the disk stand at the highest slot delivered. */
  ghost predicate AtTip(w: World) {
    && w.bound == NO_BOUND && w.m.tracker.latest == w.high
    && w.high == if w.m.disk.meta.Some? then w.m.disk.meta.value.latest else 0
  }

  lemma StepAtTip(w: World, e: Event, w': World)
    requires WorldOk(w) && AtTip(w) && (e.Delivery? || e.Crash?) && Step(w, e, w')
    ensures AtTip(w')
  {
    if e.Delivery? {
      DeliveryRetains(w, e, w');
    } else {
      RestartedTracker(w.m.disk, w.m.tracker.window, w'.m);
    }
  }

  lemma {:induction false} RunAtTip(worlds: seq<World>, events: seq<Event>, window: uint64)
    requires IsRun(worlds, events, window) && forall i :: 0 <= i < |events| ==> events[i].Delivery? || events[i].Crash?
    ensures AtTip(worlds[|events|])
  {
    if events != [] {
      var n := |events|;
      RunAtTip(worlds[..n], events[..n - 1], window);
      RunsOk(worlds[..n], events[..n - 1], window);
      StepAtTip(worlds[n - 1], events[n - 1], worlds[n]);
    }
  }

  /** Without rollbacks the restored tracker gives the same answer to every query, refusals
      included. */
  lemma RestartAgreesWithoutRollback(worlds: seq<World>, events: seq<Event>, window: uint64,
                                     state: ActivityState, key: string, atSlot: uint64)
    requires IsRun(worlds, events, window) && forall i :: 0 <= i < |events| ==> events[i].Delivery? || events[i].Crash?
    requires LoadedFrom(worlds[|events|].m.disk, state) && state.window != 0
    ensures var restored := Restored(Tracker(window, 0, map[]), state);
      restored.Ok? && VolumeAt(restored.value, key, atSlot) == VolumeAt(worlds[|events|].m.tracker, key, atSlot)
  {
    RunsOk(worlds, events, window);
    RunAtTip(worlds, events, window);
    RestartAgrees(worlds, events, window, state, key, atSlot);
    var w := worlds[|events|];
    RestoredHolds(w.m.disk, window, state, Restored(Tracker(window, 0, map[]), state).value);
  }
}
