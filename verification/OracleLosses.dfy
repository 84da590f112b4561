/** What rollbacks and failed writes cost: moves that are never recorded, and recorded moves that
    never reach the disk. */
module OracleLosses {
  import opened Words
  import opened Dex
  import opened ActivityLists
  import opened ActivityRestore
  import opened ActivitySpec
  import opened ActivityStore
  import opened OracleResults
  import opened OracleRuns

  // ----- what a rollback costs -----

  /** A delivery records the move of its pool on the chain exactly when the move is swap-shaped and
      the pool is still tracked. */
  lemma DeliveryRecordsIff(w: World, state: PoolState, swap: SwapTransition)
    requires WorldOk(w) && state.slot >= w.floor && ChainOk(w.chain + [state])
    ensures swap in Recorded(w, state) <==>
            state.poolId in w.m.pools && MoveAt(w.chain + [state], |w.chain|) == Swap(swap)
  {
    DeliveryAccepted(w, state);
    TrackedIsLast(w, state);
    assert (w.chain + [state])[..|w.chain|] == w.chain;
  }

  /** A rollback stops tracking the pools it rolls back, so their next move on the chain, swap-shaped
      or not, is not recorded. */
  lemma RolledBackPoolMissesNextMove(w: World, slot: uint64, w': World, state: PoolState)
    requires Step(w, RollbackTo(slot), w')
    requires state.poolId in w.m.pools && w.m.pools[state.poolId].slot > slot
    ensures Recorded(w', state) == {}
  {
    assert Tracked(w'.m.pools, state.poolId) == None;
  }

  // ----- a run that shows it -----

  lemma NothingPruned(swaps: SwapTable, cutoff: uint64)
    ensures PruneSelection(swaps, cutoff, 0, 0, []) && swaps == Without(swaps, [])
  {
  }

  lemma SavePossible(d: Disk, state: PoolState, swap: Option<SwapTransition>, window: uint64) returns (after: Disk)
    ensures Saved(d, state, swap, window, 0, 0, after)
  {
    var meta := SavedMetadata(d.meta, state.slot, window);
    var swaps := if swap.Some? then d.swaps[ActivityKey(swap.value) := swap.value] else d.swaps;
    NothingPruned(swaps, Cutoff(meta.latest, window));
    after := Disk(Some(meta), swaps, d.pools[StateKey(state) := state]);
  }

  lemma HandlingPossible(m: Machine, state: PoolState) returns (m': Machine)
    requires ObserveTransition(m.tracker, Tracked(m.pools, state.poolId), Some(state)).result.Ok?
    ensures Handled(m, state, 0, 0, m')
  {
    var o := ObserveTransition(m.tracker, Tracked(m.pools, state.poolId), Some(state));
    var disk := SavePossible(m.disk, state, o.result.value, m.tracker.window);
    m' := Machine(m.pools[state.poolId := state], o.tracker, disk);
  }

  /** Nothing blocks an in-order delivery: some world follows it. */
  lemma DeliveryPossible(w: World, state: PoolState) returns (w': World)
    requires WorldOk(w) && w.bound == NO_BOUND && state.slot >= w.floor && ChainOk(w.chain + [state])
    ensures Step(w, Delivery(state, 0, 0), w') && w'.m.pools == w.m.pools[state.poolId := state]
  {
    DeliveryAccepted(w, state);
    var m := HandlingPossible(w.m, state);
    w' := World(m, w.chain + [state], w.history + Recorded(w, state), Max(w.high, state.slot), state.slot, NO_BOUND);
  }

  function SampleState(slot: uint64, txHash: string, x: uint64, y: uint64): PoolState {
    PoolState("pool", "net", "dex", AssetAmount(AssetClass([1], [1]), x), AssetAmount(AssetClass([2], [2]), y),
              0, 0, slot, "block", txHash, 0, false)
  }

  const P1 := SampleState(1, "a", 100, 100)
  const P2 := SampleState(2, "b", 110, 91)
  const P3 := SampleState(3, "c", 120, 84)

  lemma OneOk(a: PoolState)
    requires ConfirmedPool(a) && NamedState(a)
    ensures ChainOk([a])
  {
  }

  lemma TwoOk(a: PoolState, b: PoolState)
    requires ConfirmedPool(a) && NamedState(a) && ConfirmedPool(b) && NamedState(b)
    requires a.slot <= b.slot && a.txHash != b.txHash && SameIdentity(a, b) && a.poolId == b.poolId
    ensures ChainOk([a, b])
  {
  }

  lemma SampleNamed(slot: uint64, txHash: string, x: uint64, y: uint64)
    requires ':' !in txHash
    ensures ConfirmedPool(SampleState(slot, txHash, x, y)) && NamedState(SampleState(slot, txHash, x, y))
  {
    assert AssetClass([1], [1]).policyId[0] != AssetClass([2], [2]).policyId[0];
  }

  lemma SampleChains()
    ensures ChainOk([P1]) && ChainOk([P1, P2]) && ChainOk([P1, P3])
    ensures MoveAt([P1, P2], 1).Swap? && MoveAt([P1, P3], 1).Swap?
  {
    SampleNamed(1, "a", 100, 100);
    SampleNamed(2, "b", 110, 91);
    SampleNamed(3, "c", 120, 84);
    assert "a"[0] != "b"[0] && "a"[0] != "c"[0];
    OneOk(P1);
    TwoOk(P1, P2);
    TwoOk(P1, P3);
    assert [P1, P2][..1] == [P1, P3][..1] == [P1] && [P1][..0] == [];
  }

  lemma ExtendedRun(worlds: seq<World>, events: seq<Event>, window: uint64, e: Event, w: World)
    requires IsRun(worlds, events, window) && Step(worlds[|events|], e, w)
    ensures IsRun(worlds + [w], events + [e], window)
  {
    var more, longer := worlds + [w], events + [e];
    forall i | 0 <= i < |longer| ensures Step(more[i], longer[i], more[i + 1]) {
      if i < |events| {
        assert Step(worlds[i], events[i], worlds[i + 1]);
      }
    }
  }

  /** A run whose last world has this chain and awaits a delivery. */
  ghost predicate RunsTo(worlds: seq<World>, events: seq<Event>, chain: seq<PoolState>, floor: int) {
    && IsRun(worlds, events, 10)
    && worlds[|events|].chain == chain && worlds[|events|].bound == NO_BOUND
    && worlds[|events|].floor == floor == worlds[|events|].high
  }

  lemma DeliveredRun(worlds: seq<World>, events: seq<Event>, chain: seq<PoolState>, floor: int, state: PoolState)
    returns (w: World)
    requires RunsTo(worlds, events, chain, floor) && state.slot >= floor && ChainOk(chain + [state])
    ensures RunsTo(worlds + [w], events + [Delivery(state, 0, 0)], chain + [state], state.slot)
    ensures state.poolId in w.m.pools && w.m.pools[state.poolId] == state
  {
    RunsOk(worlds, events, 10);
    w := DeliveryPossible(worlds[|events|], state);
    ExtendedRun(worlds, events, 10, Delivery(state, 0, 0), w);
  }

  lemma RolledBackRun(worlds: seq<World>, events: seq<Event>) returns (w: World)
    requires RunsTo(worlds, events, [P1, P2], 2)
    ensures RunsTo(worlds + [w], events + [RollbackTo(1)], [P1], 2)
    ensures Step(worlds[|events|], RollbackTo(1), w)
  {
    var last := worlds[|events|];
    w := World(RolledBackMachine(last.m, 1), UpTo(last.chain, 1),
               (set e | e in last.history && e.slot < FirstRolledBackSlot(1)), last.high, 2, NO_BOUND);
    assert [P1, P2][..1] == [P1];
    ExtendedRun(worlds, events, 10, RollbackTo(1), w);
  }

  lemma StartRun() returns (w: World)
    ensures RunsTo([w], [], [], 0)
  {
    w := World(Machine(map[], Tracker(10, 0, map[]), Disk(None, map[], map[])), [], {}, 0, 0, NO_BOUND);
  }

  lemma NextIsMissed(before: World, w: World)
    requires Step(before, RollbackTo(1), w) && w.chain == [P1] && w.floor == 2
    requires P2.poolId in before.m.pools && before.m.pools[P2.poolId] == P2
    ensures P3.slot >= w.floor && ChainOk(w.chain + [P3])
    ensures MoveAt(w.chain + [P3], |w.chain|).Swap? && Recorded(w, P3) == {}
  {
    assert w.chain + [P3] == [P1, P3];
    SampleChains();
    RolledBackPoolMissesNextMove(before, 1, w, P3);
  }

  /** Delivered at slots 1 and 2, rolled back to 1, and delivered again at 3: the move from the state
      at 1 to the one at 3 is swap-shaped on the chain and is not recorded. */
  lemma MissedMoveRun() returns (worlds: seq<World>, events: seq<Event>)
    ensures IsRun(worlds, events, 10)
    ensures var w := worlds[|events|];
      && w.bound == NO_BOUND && P3.slot >= w.floor && ChainOk(w.chain + [P3])
      && MoveAt(w.chain + [P3], |w.chain|).Swap? && Recorded(w, P3) == {}
  {
    SampleChains();
    assert [] + [P1] == [P1] && [P1] + [P2] == [P1, P2];
    var w0 := StartRun();
    var w1 := DeliveredRun([w0], [], [], 0, P1);
    var toP1 := [w0] + [w1];
    var w2 := DeliveredRun(toP1, [] + [Delivery(P1, 0, 0)], [P1], 1, P2);
    var toP2, twice := toP1 + [w2], [] + [Delivery(P1, 0, 0)] + [Delivery(P2, 0, 0)];
    var w3 := RolledBackRun(toP2, twice);
    worlds, events := toP2 + [w3], twice + [RollbackTo(1)];
    NextIsMissed(w2, w3);
  }

  // ----- a write that fails -----

  /** Memory has moved on when the write of a delivery fails, and the disk has not. */
  ghost predicate WriteFailed(m: Machine, state: PoolState, m': Machine) {
    var o := ObserveTransition(m.tracker, Tracked(m.pools, state.poolId), Some(state));
    && o.result.Ok? && m' == Machine(m.pools[state.poolId := state], o.tracker, m.disk)
  }

  /** What a failed write leaves in memory beside the disk. */
  lemma FailedWriteRetains(w: World, state: PoolState, m': Machine)
    requires WorldOk(w) && state.slot >= w.floor && ChainOk(w.chain + [state]) && WriteFailed(w.m, state, m')
    ensures TrackerOk(m'.tracker) && m'.tracker.window == w.m.tracker.window && m'.tracker.latest == state.slot
    ensures forall x :: x in InMemory(m'.tracker) <==>
            (x in InMemory(w.m.tracker) && x.slot >= Cutoff(state.slot, w.m.tracker.window)) || x in Recorded(w, state)
  {
    assert (w.chain + [state])[|w.chain|] == state;
    ObserveTransitionOk(w.m.tracker, Tracked(w.m.pools, state.poolId), state);
  }

  lemma RecordedIsNew(w: World, state: PoolState, x: SwapTransition)
    requires WorldOk(w) && state.slot >= w.floor && ChainOk(w.chain + [state]) && x in Recorded(w, state)
    ensures x.slot == state.slot && x !in w.history
  {
    DeliveryAccepted(w, state);
    TrackedIsLast(w, state);
    InferenceIsExact(Tracked(w.m.pools, state.poolId).value, state, x);
    DeliveryIsNew(w, state, x);
  }

  lemma AgreeButRecorded(w: World, recorded: set<SwapTransition>, u: Tracker, t: Tracker, slot: uint64, x: SwapTransition)
    requires Retains(w, InMemory(w.m.tracker)) && Retains(w, OnDisk(w.m.disk)) && w.bound == NO_BOUND
    requires t.latest <= w.high && t.window == w.m.tracker.window && x.slot >= Cutoff(Max(w.high, slot), t.window)
    requires x in InMemory(t) <==> Stored(w.m.disk, x) && x.slot >= Cutoff(t.latest, t.window)
    requires x in InMemory(u) <==> (x in InMemory(w.m.tracker) && x.slot >= Cutoff(slot, t.window)) || x in recorded
    requires x in recorded ==> x !in w.history
    ensures x in InMemory(u) <==> x in InMemory(t) || x in recorded
    ensures x in recorded ==> x !in InMemory(t)
  {
    RetainedIff(w, x);
  }

  /** The write of an in-order delivery fails, and the process restarts. */
  ghost predicate FailedAndRestarted(w: World, state: PoolState, m': Machine, r: Machine) {
    && w.bound == NO_BOUND && state.slot >= w.floor && ChainOk(w.chain + [state])
    && WriteFailed(w.m, state, m') && Restarted(m'.disk, m'.tracker.window, r)
  }

  lemma AfterRestart(w: World, state: PoolState, m': Machine, r: Machine)
    requires WorldOk(w) && FailedAndRestarted(w, state, m', r)
    ensures TrackerOk(r.tracker) && r.tracker.window == w.m.tracker.window && r.tracker.latest <= w.high
    ensures forall x :: x in InMemory(r.tracker) <==>
            Stored(w.m.disk, x) && x.slot >= Cutoff(r.tracker.latest, w.m.tracker.window)
  {
    FailedWriteRetains(w, state, m');
    RestartedTracker(w.m.disk, w.m.tracker.window, r);
  }

  /** On the window of the highest slot a failed write leaves memory with what a restart restores
      and the swap that the delivery recorded. */
  lemma FailedWriteWindow(w: World, state: PoolState, m': Machine, r: Machine, x: SwapTransition)
    requires WorldOk(w) && FailedAndRestarted(w, state, m', r)
    requires x.slot >= Cutoff(Max(w.high, state.slot), w.m.tracker.window)
    ensures x in InMemory(m'.tracker) <==> x in InMemory(r.tracker) || x in Recorded(w, state)
    ensures x in Recorded(w, state) ==> x !in InMemory(r.tracker)
  {
    AfterRestart(w, state, m', r);
    FailedWriteRetains(w, state, m');
    if x in Recorded(w, state) {
      RecordedIsNew(w, state, x);
    }
    AgreeButRecorded(w, Recorded(w, state), m'.tracker, r.tracker, state.slot, x);
  }

  /** From the cutoff on the first tracker lacks just these swaps of the second. */
  ghost predicate Lacks(t: Tracker, u: Tracker, lost: set<SwapTransition>, c: int) {
    && TrackerOk(t) && TrackerOk(u) && t.window == u.window
    && forall x: SwapTransition :: x.slot >= c ==>
         (x in InMemory(u) <==> x in InMemory(t) || x in lost) && (x in lost ==> x !in InMemory(t))
  }

  // ----- the volume that a failed write loses -----

  /** The pool is tracked and the state moves its reserves as a swap does. */
  ghost predicate RecordsMove(w: World, state: PoolState) {
    state.poolId in w.m.pools && MoveAt(w.chain + [state], |w.chain|).Swap?
  }

  /** What a restart loses: the move of the delivery, if it records one. */
  ghost function Lost(w: World, state: PoolState): (lost: set<SwapTransition>)
    ensures |lost| <= 1
  {
    if RecordsMove(w, state) then {MoveAt(w.chain + [state], |w.chain|).swap} else {}
  }

  lemma RecordedIsLost(w: World, state: PoolState)
    requires WorldOk(w) && state.slot >= w.floor && ChainOk(w.chain + [state])
    ensures Recorded(w, state) == Lost(w, state)
    ensures forall x :: x in Lost(w, state) ==> x.slot == state.slot && x.Key() == state.Key() && x.amountX > 0
  {
    forall x ensures x in Recorded(w, state) <==> x in Lost(w, state) {
      DeliveryRecordsIff(w, state, x);
    }
    if RecordsMove(w, state) {
      TrackedIsLast(w, state);
      DeliveryAccepted(w, state);
      InferenceIsExact(Tracked(w.m.pools, state.poolId).value, state, MoveAt(w.chain + [state], |w.chain|).swap);
    }
  }

  lemma RestartLacks(w: World, state: PoolState, m': Machine, r: Machine, c: int)
    requires WorldOk(w) && FailedAndRestarted(w, state, m', r)
    requires c >= Cutoff(Max(w.high, state.slot), w.m.tracker.window)
    ensures Lacks(r.tracker, m'.tracker, Lost(w, state), c)
    ensures r.tracker.window == w.m.tracker.window && r.tracker.latest <= w.high && m'.tracker.latest == state.slot
    ensures forall x :: x in Lost(w, state) ==> x.slot == state.slot && x.Key() == state.Key() && x.amountX > 0
  {
    AfterRestart(w, state, m', r);
    FailedWriteRetains(w, state, m');
    RecordedIsLost(w, state);
    forall x: SwapTransition | x.slot >= c
      ensures x in InMemory(m'.tracker) <==> x in InMemory(r.tracker) || x in Recorded(w, state)
      ensures x in Recorded(w, state) ==> x !in InMemory(r.tracker)
    {
      FailedWriteWindow(w, state, m', r, x);
    }
  }

  lemma AgreeIffNothingThere(t: Tracker, u: Tracker, lost: set<SwapTransition>, c: int, slot: int)
    requires Lacks(t, u, lost, c) && forall x :: x in lost ==> x.slot == slot
    ensures (forall x: SwapTransition :: x.slot >= c ==> (x in InMemory(t) <==> x in InMemory(u)))
            <==> lost == {} || slot < c
  {
  }

  /** After a failed write a restart loses the swap of the delivery: on the window of the highest
      slot it restores the swaps in memory if and only if the pool is untracked, the move not
      swap-shaped, or the slot below that window after a deep rollback. */
  lemma FailedWriteAgreesIff(w: World, state: PoolState, m': Machine, r: Machine)
    requires WorldOk(w) && FailedAndRestarted(w, state, m', r)
    ensures var c := Cutoff(Max(w.high, state.slot), w.m.tracker.window);
      (forall x: SwapTransition :: x.slot >= c ==> (x in InMemory(r.tracker) <==> x in InMemory(m'.tracker)))
      <==> !RecordsMove(w, state) || state.slot < c
  {
    var c := Cutoff(Max(w.high, state.slot), w.m.tracker.window);
    RestartLacks(w, state, m', r, c);
    AgreeIffNothingThere(r.tracker, m'.tracker, Lost(w, state), c, state.slot);
  }

  /** One more swap in the window changes the reported turnover, unless that overflows already. */
  lemma OneMoreSwap(a: seq<SwapTransition>, b: seq<SwapTransition>, c: int, x: SwapTransition)
    requires DistinctIdentities(a) && DistinctIdentities(b) && x.slot >= c && x.amountX > 0
    requires forall e: SwapTransition :: e.slot >= c ==> (e in b <==> e in a || e == x)
    requires x !in a
    ensures TurnoverOf(Since(a, c)) == TurnoverOf(Since(b, c)) <==> TurnoverOf(Since(a, c)).Err?
  {
    var before, after := Since(a, c), Since(b, c);
    forall e ensures multiset(after)[e] == multiset(before + [x])[e] {
      SinceCounts(a, c, e);
      SinceCounts(b, c, e);
      DistinctCounts(a, e);
      DistinctCounts(b, e);
    }
    SumsOfPermutation(after, before + [x]);
    SumsSplit(before, [x]);
    assert |after| == |multiset(after)| == |before| + 1;
  }

  lemma LackingOneReportsLess(t: Tracker, u: Tracker, x: SwapTransition, atSlot: uint64)
    requires Lacks(t, u, {x}, Cutoff(atSlot, t.window)) && atSlot >= t.latest && atSlot >= u.latest
    requires x.slot >= Cutoff(atSlot, t.window) && x.amountX > 0
    ensures VolumeAt(t, x.Key(), atSlot) == VolumeAt(u, x.Key(), atSlot) <==> VolumeAt(t, x.Key(), atSlot).Err?
  {
    var key, c := x.Key(), Cutoff(atSlot, t.window);
    var a, b := At(t.swaps, key), At(u.swaps, key);
    assert ListOk(a, key, Cutoff(t.latest, t.window), t.latest);
    assert ListOk(b, key, Cutoff(u.latest, t.window), u.latest);
    forall e: SwapTransition | e.slot >= c ensures e in b <==> e in a || e == x {
      assert e in a ==> e.Key() == key && e in InMemory(t);
      assert e in b ==> e.Key() == key && e in InMemory(u);
    }
    OneMoreSwap(a, b, c, x);
  }

  lemma LackingOthersReportsSame(t: Tracker, u: Tracker, lost: set<SwapTransition>, key: string, atSlot: uint64)
    requires Lacks(t, u, lost, Cutoff(atSlot, t.window)) && atSlot >= t.latest && atSlot >= u.latest
    requires forall x :: x in lost ==> x.Key() != key || x.slot < Cutoff(atSlot, t.window)
    ensures VolumeAt(t, key, atSlot) == VolumeAt(u, key, atSlot)
  {
    var a, b, c := At(t.swaps, key), At(u.swaps, key), Cutoff(atSlot, t.window);
    assert ListOk(a, key, Cutoff(t.latest, t.window), t.latest);
    assert ListOk(b, key, Cutoff(u.latest, t.window), u.latest);
    forall x: SwapTransition | x.slot >= c ensures x in a <==> x in b {
      assert x in a ==> x.Key() == key && x in InMemory(t);
      assert x in b ==> x.Key() == key && x in InMemory(u);
    }
    TurnoverOfSameWindow(a, b, c);
  }

  /** Lacking at most one swap of a pool changes the answer exactly when that swap counts. */
  lemma LackingReportsIff(t: Tracker, u: Tracker, lost: set<SwapTransition>, of: string, slot: uint64,
                          key: string, atSlot: uint64)
    requires Lacks(t, u, lost, Cutoff(atSlot, t.window)) && atSlot >= t.latest && atSlot >= u.latest
    requires |lost| <= 1
    requires forall x :: x in lost ==> x.slot == slot && x.Key() == of && x.amountX > 0
    ensures VolumeAt(t, key, atSlot) == VolumeAt(u, key, atSlot) <==>
            lost == {} || key != of || slot < Cutoff(atSlot, t.window) || VolumeAt(t, key, atSlot).Err?
  {
    if lost != {} && key == of && slot >= Cutoff(atSlot, t.window) {
      var x :| x in lost;
      assert lost == {x} by {
        assert |lost - {x}| == 0;
      }
      LackingOneReportsLess(t, u, x, atSlot);
    } else {
      LackingOthersReportsSame(t, u, lost, key, atSlot);
    }
  }

  lemma RestartReportsIff(w: World, state: PoolState, m': Machine, r: Machine, key: string, atSlot: uint64)
    requires WorldOk(w) && FailedAndRestarted(w, state, m', r) && atSlot >= w.high && atSlot >= state.slot
    ensures VolumeAt(r.tracker, key, atSlot) == VolumeAt(m'.tracker, key, atSlot) <==>
            Lost(w, state) == {} || key != state.Key() || state.slot < Cutoff(atSlot, w.m.tracker.window)
            || VolumeAt(r.tracker, key, atSlot).Err?
  {
    RestartLacks(w, state, m', r, Cutoff(atSlot, w.m.tracker.window));
    LackingReportsIff(r.tracker, m'.tracker, Lost(w, state), state.Key(), state.slot, key, atSlot);
  }

  lemma SameAfterRestart(w: World, state: PoolState, m': Machine, r: Machine, key: string, atSlot: uint64)
    requires WorldOk(w) && FailedAndRestarted(w, state, m', r) && atSlot >= w.high
    ensures VolumeAt(r.tracker, key, atSlot) == VolumeAt(w.m.tracker, key, atSlot)
  {
    AfterRestart(w, state, m', r);
    SameVolume(w, r.tracker, key, atSlot);
  }

  /** A query at or above the highest slot is answered after the restart as memory answered it, if
      and only if it does not ask about the pool of a move that was lost and lies in the window, or
      the volume overflowed before. */
  lemma FailedWriteVolumeIff(w: World, state: PoolState, m': Machine, r: Machine, key: string, atSlot: uint64)
    requires WorldOk(w) && FailedAndRestarted(w, state, m', r) && atSlot >= w.high && atSlot >= state.slot
    ensures VolumeAt(r.tracker, key, atSlot) == VolumeAt(m'.tracker, key, atSlot) <==>
            !RecordsMove(w, state) || key != state.Key() || state.slot < Cutoff(atSlot, w.m.tracker.window)
            || VolumeAt(w.m.tracker, key, atSlot).Err?
  {
    SameAfterRestart(w, state, m', r, key, atSlot);
    RestartReportsIff(w, state, m', r, key, atSlot);
  }

  // ----- a run in which it is lost -----

  /** Whatever memory and disk retain was recorded. */
  lemma RetainedIsRecorded(w: World)
    requires WorldOk(w)
    ensures forall k :: k in w.m.disk.swaps ==> w.m.disk.swaps[k] in w.history
    ensures forall key :: At(w.m.tracker.swaps, key) != [] ==> At(w.m.tracker.swaps, key)[0] in w.history
  {
    forall k | k in w.m.disk.swaps ensures w.m.disk.swaps[k] in w.history {
      assert w.m.disk.swaps[k] in OnDisk(w.m.disk);
    }
    forall key | At(w.m.tracker.swaps, key) != [] ensures At(w.m.tracker.swaps, key)[0] in w.history {
      assert ListOk(At(w.m.tracker.swaps, key), key, Cutoff(w.m.tracker.latest, w.m.tracker.window), w.m.tracker.latest);
      assert At(w.m.tracker.swaps, key)[0] in InMemory(w.m.tracker);
    }
  }

  lemma NothingRecorded(w: World)
    requires WorldOk(w) && w.chain == [P1]
    ensures w.m.disk.swaps == map[] && forall key :: At(w.m.tracker.swaps, key) == []
  {
    assert [P1][..0] == [];
    assert MoveAt([P1], 0) == NotSwap;
    assert w.history == {};
    RetainedIsRecorded(w);
  }

  lemma RestartWithoutSwaps(w: World) returns (r: Machine)
    requires WorldOk(w) && w.m.disk.swaps == map[]
    ensures Restarted(w.m.disk, w.m.tracker.window, r)
  {
    var window := w.m.tracker.window;
    var meta := if w.m.disk.meta.Some? then w.m.disk.meta.value else Metadata(0, 0);
    var state, keys := ActivityState(meta.window, meta.latest, []), [];
    r := Machine(w.m.pools, Tracker(window, meta.latest, map[]), w.m.disk);
    assert NoRepeats(keys) && Ascending(keys) && |keys| == |state.swaps|;
    assert LoadedFrom(w.m.disk, state);
    forall p | p in r.pools ensures exists k :: k in r.disk.pools && r.disk.pools[k] == r.pools[p] && r.pools[p].poolId == p {
      LastOfIsOnChain(w.chain, p);
      assert StateKey(r.pools[p]) in r.disk.pools;
    }
    assert state.window != 0 ==> Restored(Tracker(window, 0, map[]), state) == Ok(r.tracker);
  }

  lemma WriteCanFail(w: World, state: PoolState) returns (m': Machine)
    requires WorldOk(w) && state.slot >= w.floor && ChainOk(w.chain + [state])
    ensures WriteFailed(w.m, state, m') && m'.disk == w.m.disk && m'.tracker.window == w.m.tracker.window
  {
    DeliveryAccepted(w, state);
    m' := Machine(w.m.pools[state.poolId := state],
                  ObserveTransition(w.m.tracker, Tracked(w.m.pools, state.poolId), Some(state)).tracker, w.m.disk);
  }

  lemma NothingReported(w: World, key: string, atSlot: uint64)
    requires WorldOk(w) && w.chain == [P1] && atSlot >= w.high
    ensures VolumeAt(w.m.tracker, key, atSlot) == Ok(None)
  {
    NothingRecorded(w);
  }

  lemma LostAfterFirst(w: World, m': Machine, r: Machine)
    requires WorldOk(w) && w.chain == [P1] && w.high == 1 && w.m.tracker.window == 10
    requires FailedAndRestarted(w, P2, m', r) && RecordsMove(w, P2)
    ensures VolumeAt(r.tracker, P2.Key(), 2) == Ok(None) != VolumeAt(m'.tracker, P2.Key(), 2)
  {
    NothingReported(w, P2.Key(), 2);
    SameAfterRestart(w, P2, m', r, P2.Key(), 2);
    FailedWriteVolumeIff(w, P2, m', r, P2.Key(), 2);
  }

  /** Delivered at slot 1; then the write of a delivery at 2 fails and the process restarts: memory
      had counted the swap at 2, and the restarted oracle reports none. */
  lemma FailedWriteRun() returns (worlds: seq<World>, events: seq<Event>, m': Machine, r: Machine)
    ensures IsRun(worlds, events, 10) && FailedAndRestarted(worlds[|events|], P2, m', r)
    ensures VolumeAt(r.tracker, P2.Key(), 2) == Ok(None) != VolumeAt(m'.tracker, P2.Key(), 2)
  {
    SampleChains();
    assert [] + [P1] == [P1] && [P1] + [P2] == [P1, P2];
    var w0 := StartRun();
    var w := DeliveredRun([w0], [], [], 0, P1);
    worlds, events := [w0] + [w], [] + [Delivery(P1, 0, 0)];
    RunsOk(worlds, events, 10);
    NothingRecorded(w);
    m' := WriteCanFail(w, P2);
    r := RestartWithoutSwaps(w);
    LostAfterFirst(w, m', r);
  }

  // ----- the retry -----

  /** Delivering the state again after a failed write saves the pool but never the swap: memory
      already holds the state, so the retry infers nothing. */
  lemma RetryRecordsNothing(m: Machine, state: PoolState, m': Machine, after: Machine, maxCount: int, maxSize: int)
    requires WriteFailed(m, state, m') && Handled(m', state, maxCount, maxSize, after)
    requires !state.fromMempool
    ensures Saved(m.disk, state, None, m'.tracker.window, maxCount, maxSize, after.disk)
    ensures forall k :: k in after.disk.swaps ==> k in m.disk.swaps
  {
    assert Tracked(m'.pools, state.poolId) == Some(state);
    assert InferSwapTransition(Some(state), Some(state)) == NotSwap;
  }
}
