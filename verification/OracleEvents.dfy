/** The oracle's memory read off the events alone: which pools are tracked after a run, which moves
    were recorded, and the volume that follows from them. */
module OracleEvents {
  import opened Words
  import opened Dex
  import opened ActivityLists
  import opened ActivityReports
  import opened ActivityRestore
  import opened ActivitySpec
  import opened ActivityStore
  import opened OracleRuns
  import OracleVolume

  // ----- tracked pools -----

  /** The event ends the tracking of a state: a newer state of its pool, a rollback to before it, or
      a rollback that crashed after the deletion of its record. */
  predicate Ends(e: Event, s: PoolState) {
    match e
    case Delivery(state, _, _) => state.poolId == s.poolId
    case RollbackTo(slot) => s.slot >= FirstRolledBackSlot(slot)
    case Crash => false
    case CrashInRollback(_, _, deleted) => StateKey(s) in deleted
  }

  /** What an event leaves of the tracking of a pool. */
  function TrackedAfter(e: Event, before: Option<PoolState>, poolId: string): Option<PoolState> {
    if e.Delivery? && e.state.poolId == poolId then Some(e.state)
    else if before.Some? && Ends(e, before.value) then None
    else before
  }

  /** The state of a pool that is tracked after the events. */
  function TrackedBy(events: seq<Event>, poolId: string): Option<PoolState> {
    if events == [] then None
    else TrackedAfter(events[|events| - 1], TrackedBy(events[..|events| - 1], poolId), poolId)
  }

  ghost predicate InForce(events: seq<Event>, i: int, s: PoolState) {
    && 0 <= i < |events| && events[i].Delivery? && events[i].state == s
    && forall j :: i < j < |events| ==> !Ends(events[j], s)
  }

  lemma InForceAfter(events: seq<Event>, e: Event, i: int, s: PoolState)
    ensures InForce(events + [e], i, s) <==>
            (InForce(events, i, s) && !Ends(e, s)) || (i == |events| && e.Delivery? && e.state == s)
  {
    var more := events + [e];
    assert more[|events|] == e && forall j :: 0 <= j < |events| ==> more[j] == events[j];
    if InForce(more, i, s) && i < |events| {
      assert !Ends(more[|events|], s);
      forall j | i < j < |events| ensures !Ends(events[j], s) {
        assert !Ends(more[j], s);
      }
    }
  }

  lemma SomeInForceAfter(events: seq<Event>, e: Event, s: PoolState)
    ensures (exists i :: InForce(events + [e], i, s)) <==>
            ((exists i :: InForce(events, i, s)) && !Ends(e, s)) || (e.Delivery? && e.state == s)
  {
    forall i ensures InForce(events + [e], i, s) <==>
                     (InForce(events, i, s) && !Ends(e, s)) || (i == |events| && e.Delivery? && e.state == s)
    {
      InForceAfter(events, e, i, s);
    }
    if e.Delivery? && e.state == s {
      assert InForce(events + [e], |events|, s);
    }
  }

  /** A state is tracked exactly when it was delivered and no later event ended it. */
  lemma {:induction false} TrackedByIff(events: seq<Event>, s: PoolState)
    ensures TrackedBy(events, s.poolId) == Some(s) <==> exists i :: InForce(events, i, s)
    ensures var t := TrackedBy(events, s.poolId); t.Some? ==> t.value.poolId == s.poolId
  {
    if events != [] {
      var rest, e := events[..|events| - 1], events[|events| - 1];
      assert events == rest + [e];
      TrackedByIff(rest, s);
      SomeInForceAfter(rest, e, s);
    }
  }

  lemma ReloadedPools(w: World, disk: Disk, deleted: set<string>, pools: map<string, PoolState>, poolId: string)
    requires PoolsMirrored(w) && PoolsLoaded(disk.pools, pools) && disk.pools == w.m.disk.pools - deleted
    ensures var before := Tracked(w.m.pools, poolId);
      Tracked(pools, poolId) == if before.Some? && StateKey(before.value) in deleted then None else before
  {
    RestartPools(w.chain, w.m.pools, disk.pools, pools);
    LastOfIsOnChain(w.chain, poolId);
    if poolId in w.m.pools && StateKey(w.m.pools[poolId]) !in deleted {
      assert StateKey(w.m.pools[poolId]) in disk.pools;
    }
  }

  lemma InterruptedTracks(w: World, e: Event, w': World, poolId: string)
    requires WorldOk(w) && e.CrashInRollback? && Step(w, e, w')
    ensures Tracked(w'.m.pools, poolId) == TrackedAfter(e, Tracked(w.m.pools, poolId), poolId)
  {
    BatchesShrink(e.disks, FirstRolledBackSlot(e.slot));
    ReloadedPools(w, Remaining(e.disks, e.deleted), e.deleted, w'.m.pools, poolId);
  }

  lemma CrashTracks(w: World, e: Event, w': World, poolId: string)
    requires WorldOk(w) && e.Crash? && Step(w, e, w')
    ensures Tracked(w'.m.pools, poolId) == TrackedAfter(e, Tracked(w.m.pools, poolId), poolId)
  {
    ReloadedPools(w, w.m.disk, {}, w'.m.pools, poolId);
  }

  lemma StepTracks(w: World, e: Event, w': World, poolId: string)
    requires WorldOk(w) && Step(w, e, w')
    ensures Tracked(w'.m.pools, poolId) == TrackedAfter(e, Tracked(w.m.pools, poolId), poolId)
  {
    match e {
      case Delivery(_, _, _) => LastOfIsOnChain(w.chain, poolId);
      case RollbackTo(_) =>
      case Crash => CrashTracks(w, e, w', poolId);
      case CrashInRollback(_, _, _) => InterruptedTracks(w, e, w', poolId);
    }
  }

  /** After every run the tracked pools are those that the events leave. */
  lemma {:induction false} TrackedIsTrackedBy(worlds: seq<World>, events: seq<Event>, window: uint64, poolId: string)
    requires IsRun(worlds, events, window)
    ensures Tracked(worlds[|events|].m.pools, poolId) == TrackedBy(events, poolId)
  {
    var n := |events|;
    if n > 0 {
      TrackedIsTrackedBy(worlds[..n], events[..n - 1], window, poolId);
      RunsOk(worlds[..n], events[..n - 1], window);
      StepTracks(worlds[n - 1], events[n - 1], worlds[n], poolId);
    }
  }

  // ----- recorded moves -----

  /** The move of a delivery from the state that the earlier events leave. */
  function MoveBy(events: seq<Event>, state: PoolState): Inference {
    InferSwapTransition(TrackedBy(events, state.poolId), Some(state))
  }

  /** The recorded moves of one pool, oldest first. */
  function MovesBy(events: seq<Event>, key: string): seq<SwapTransition> {
    if events == [] then []
    else
      var e, rest := events[|events| - 1], events[..|events| - 1];
      match e
      case Delivery(state, _, _) =>
        MovesBy(rest, key) +
        (match MoveBy(rest, state)
         case Swap(x) => if x.Key() == key then [x] else []
         case _ => [])
      case RollbackTo(slot) => BeforeSlot(MovesBy(rest, key), FirstRolledBackSlot(slot))
      case _ => MovesBy(rest, key)
  }

  /** The moves are the history of one pool, in slot order and without repetitions. */
  ghost predicate Lists(w: World, moves: seq<SwapTransition>, key: string) {
    && SlotSorted(moves) && DistinctIdentities(moves)
    && forall x :: x in moves <==> x in w.history && x.Key() == key
  }

  lemma HistoryBelow(w: World, x: SwapTransition)
    requires WorldOk(w) && x in w.history
    ensures x.slot <= w.floor
  {
    var j := ChainSwapNamed(w.chain, x);
  }

  lemma RecordedIsMove(w: World, state: PoolState, x: SwapTransition)
    requires WorldOk(w) && state.slot >= w.floor && ChainOk(w.chain + [state])
    ensures x in Recorded(w, state) <==> InferSwapTransition(Tracked(w.m.pools, state.poolId), Some(state)) == Swap(x)
    ensures x in Recorded(w, state) ==>
              forall y :: y in w.history ==> y.slot <= x.slot && y.Identity() != x.Identity()
  {
    DeliveryAccepted(w, state);
    TrackedIsLast(w, state);
    if x in Recorded(w, state) {
      InferenceIsExact(Tracked(w.m.pools, state.poolId).value, state, x);
      DeliveryIsNew(w, state, x);
      forall y | y in w.history ensures y.slot <= x.slot {
        HistoryBelow(w, y);
      }
    }
  }

  lemma ListsOneMore(w: World, moves: seq<SwapTransition>, key: string, x: SwapTransition, w': World)
    requires Lists(w, moves, key) && w'.history == w.history + {x}
    requires forall y :: y in w.history ==> y.slot <= x.slot && y.Identity() != x.Identity()
    ensures Lists(w', moves + if x.Key() == key then [x] else [], key)
  {
    assert forall i :: 0 <= i < |moves| ==> moves[i] in w.history;
  }

  lemma RecordedAsMoved(w: World, state: PoolState)
    requires WorldOk(w) && state.slot >= w.floor && ChainOk(w.chain + [state])
    ensures Recorded(w, state) ==
      match InferSwapTransition(Tracked(w.m.pools, state.poolId), Some(state))
      case Swap(x) => {x}
      case _ => {}
  {
    forall x ensures x in Recorded(w, state) <==> InferSwapTransition(Tracked(w.m.pools, state.poolId), Some(state)) == Swap(x) {
      RecordedIsMove(w, state, x);
    }
  }

  lemma DeliveryLists(w: World, moves: seq<SwapTransition>, key: string, e: Event, w': World)
    requires WorldOk(w) && Lists(w, moves, key) && e.Delivery? && Step(w, e, w')
    ensures var move := InferSwapTransition(Tracked(w.m.pools, e.state.poolId), Some(e.state));
      Lists(w', moves + if move.Swap? && move.swap.Key() == key then [move.swap] else [], key)
  {
    var move := InferSwapTransition(Tracked(w.m.pools, e.state.poolId), Some(e.state));
    RecordedAsMoved(w, e.state);
    if move.Swap? {
      RecordedIsMove(w, e.state, move.swap);
      ListsOneMore(w, moves, key, move.swap, w');
    } else {
      assert moves + [] == moves && w'.history == w.history;
    }
  }

  lemma RollbackLists(w: World, moves: seq<SwapTransition>, key: string, slot: uint64, w': World)
    requires Lists(w, moves, key)
    requires w'.history == set x | x in w.history && x.slot < FirstRolledBackSlot(slot)
    ensures Lists(w', BeforeSlot(moves, FirstRolledBackSlot(slot)), key)
  {
    var first := FirstRolledBackSlot(slot);
    var n := BeforeSlotIsPrefix(moves, first);
    SortedBefore(moves, n, first);
    forall x ensures x in BeforeSlot(moves, first) <==> x in moves && x.slot < first {
      BeforeSlotSome(moves, first, n, x);
    }
  }

  lemma StepLists(w: World, e: Event, w': World, rest: seq<Event>, key: string)
    requires WorldOk(w) && Step(w, e, w') && Lists(w, MovesBy(rest, key), key)
    requires e.Delivery? ==> Tracked(w.m.pools, e.state.poolId) == TrackedBy(rest, e.state.poolId)
    ensures Lists(w', MovesBy(rest + [e], key), key)
  {
    assert (rest + [e])[..|rest|] == rest;
    if e.Delivery? {
      DeliveryLists(w, MovesBy(rest, key), key, e, w');
    } else if e.RollbackTo? {
      RollbackLists(w, MovesBy(rest, key), key, e.slot, w');
    }
  }

  lemma {:induction false} HistoryListed(worlds: seq<World>, events: seq<Event>, window: uint64, key: string)
    requires IsRun(worlds, events, window)
    ensures Lists(worlds[|events|], MovesBy(events, key), key)
  {
    var n := |events|;
    if n > 0 {
      var rest, e := events[..n - 1], events[n - 1];
      HistoryListed(worlds[..n], rest, window, key);
      RunsOk(worlds[..n], rest, window);
      if e.Delivery? {
        TrackedIsTrackedBy(worlds[..n], rest, window, e.state.poolId);
      }
      StepLists(worlds[n - 1], e, worlds[n], rest, key);
      assert events == rest + [e];
    }
  }

  /** In every world of every run, unless a rollback is pending, the reported volume is the turnover
      of the moves in the window that the events say were recorded. */
  lemma VolumeFromEvents(worlds: seq<World>, events: seq<Event>, window: uint64, key: string, atSlot: uint64)
    requires IsRun(worlds, events, window)
    requires worlds[|events|].bound == NO_BOUND && atSlot >= worlds[|events|].high
    ensures VolumeAt(worlds[|events|].m.tracker, key, atSlot)
            == TurnoverOf(Since(MovesBy(events, key), Cutoff(atSlot, window)))
  {
    RunsOk(worlds, events, window);
    HistoryListed(worlds, events, window, key);
    var w := worlds[|events|];
    var a, b, c := At(w.m.tracker.swaps, key), MovesBy(events, key), Cutoff(atSlot, window);
    assert ListOk(a, key, Cutoff(w.m.tracker.latest, window), w.m.tracker.latest);
    forall x: SwapTransition | x.slot >= c ensures x in a <==> x in b {
      OracleVolume.RecordedInWindow(w, key, c, x);
    }
    TurnoverOfSameWindow(a, b, c);
  }

  // ----- which moves are recorded -----

  /** The i-th event delivered the move while its pool was tracked, and no later rollback took it
      back. */
  ghost predicate RecordedBy(events: seq<Event>, i: int, x: SwapTransition) {
    && 0 <= i < |events| && events[i].Delivery? && MoveBy(events[..i], events[i].state) == Swap(x)
    && forall j :: i < j < |events| && events[j].RollbackTo? ==> x.slot < FirstRolledBackSlot(events[j].slot)
  }

  lemma RecordedAfter(events: seq<Event>, e: Event, i: int, x: SwapTransition)
    ensures RecordedBy(events + [e], i, x) <==>
            (RecordedBy(events, i, x) && (e.RollbackTo? ==> x.slot < FirstRolledBackSlot(e.slot)))
            || (i == |events| && e.Delivery? && MoveBy(events, e.state) == Swap(x))
  {
    var more := events + [e];
    assert more[|events|] == e && more[..|events|] == events;
    if 0 <= i < |events| {
      assert more[..i] == events[..i] && more[i] == events[i];
    }
    if RecordedBy(more, i, x) && i < |events| {
      forall j | i < j < |events| && events[j].RollbackTo? ensures x.slot < FirstRolledBackSlot(events[j].slot) {
        assert more[j].RollbackTo?;
      }
    }
  }

  lemma SomeRecordedAfter(events: seq<Event>, e: Event, x: SwapTransition)
    ensures (exists i :: RecordedBy(events + [e], i, x)) <==>
            ((exists i :: RecordedBy(events, i, x)) && (e.RollbackTo? ==> x.slot < FirstRolledBackSlot(e.slot)))
            || (e.Delivery? && MoveBy(events, e.state) == Swap(x))
  {
    forall i ensures RecordedBy(events + [e], i, x) <==>
                     (RecordedBy(events, i, x) && (e.RollbackTo? ==> x.slot < FirstRolledBackSlot(e.slot)))
                     || (i == |events| && e.Delivery? && MoveBy(events, e.state) == Swap(x))
    {
      RecordedAfter(events, e, i, x);
    }
    if e.Delivery? && MoveBy(events, e.state) == Swap(x) {
      assert RecordedBy(events + [e], |events|, x);
    }
  }

  lemma StepRecords(w: World, e: Event, w': World, x: SwapTransition)
    requires WorldOk(w) && Step(w, e, w')
    ensures x in w'.history <==>
            (x in w.history && (e.RollbackTo? ==> x.slot < FirstRolledBackSlot(e.slot)))
            || (e.Delivery? && InferSwapTransition(Tracked(w.m.pools, e.state.poolId), Some(e.state)) == Swap(x))
  {
    if e.Delivery? {
      RecordedIsMove(w, e.state, x);
    }
  }

  /** A move is recorded, and stays so until a rollback takes it back, exactly when its pool was
      tracked as it arrived. */
  lemma {:induction false} RecordedIff(worlds: seq<World>, events: seq<Event>, window: uint64, x: SwapTransition)
    requires IsRun(worlds, events, window)
    ensures x in worlds[|events|].history <==> exists i :: RecordedBy(events, i, x)
  {
    var n := |events|;
    if n > 0 {
      var rest, e := events[..n - 1], events[n - 1];
      assert events == rest + [e];
      RecordedIff(worlds[..n], rest, window, x);
      RunsOk(worlds[..n], rest, window);
      StepRecords(worlds[n - 1], e, worlds[n], x);
      if e.Delivery? {
        TrackedIsTrackedBy(worlds[..n], rest, window, e.state.poolId);
      }
      SomeRecordedAfter(rest, e, x);
    }
  }

  /** The pool names on the chain do not contain the separator of pool keys. */
  predicate ChainSeparatorFree(chain: seq<PoolState>) {
    forall i :: 0 <= i < |chain| ==> ':' !in chain[i].network && ':' !in chain[i].protocol
  }

  lemma HistorySeparatorFree(w: World, x: SwapTransition)
    requires WorldOk(w) && x in w.history && ChainSeparatorFree(w.chain)
    ensures SeparatorFree(x)
  {
    var j := ChainSwapNamed(w.chain, x);
    InferenceIsExact(LastOf(w.chain[..j], w.chain[j].poolId).value, w.chain[j], x);
  }

  ghost predicate IsRecorded(events: seq<Event>, x: SwapTransition) { exists i :: RecordedBy(events, i, x) }

  /** The moves of the chain that the events say were recorded. */
  ghost function RecordedMoves(events: seq<Event>): iset<SwapTransition> {
    iset x | IsRecorded(events, x)
  }

  ghost function HistoryOf(w: World): iset<SwapTransition> { iset x | x in w.history }

  /** The swap-shaped moves of the chain. */
  ghost function ChainMoves(chain: seq<PoolState>): iset<SwapTransition> { iset x | IsChainSwap(chain, x) }

  lemma RecordedMovesAre(worlds: seq<World>, events: seq<Event>, window: uint64)
    requires IsRun(worlds, events, window)
    ensures RecordedMoves(events) == HistoryOf(worlds[|events|])
  {
    forall x ensures x in RecordedMoves(events) <==> x in worlds[|events|].history {
      RecordedIff(worlds, events, window, x);
    }
  }

  lemma ListedReports(w: World, moves: seq<SwapTransition>, network: string, protocol: string, poolId: string,
                      window: uint64, atSlot: uint64)
    requires WorldOk(w) && Lists(w, moves, PoolKey(network, protocol, poolId)) && ChainSeparatorFree(w.chain)
    requires ':' !in network && ':' !in protocol
    ensures ReportsOnce(TurnoverOf(Since(moves, Cutoff(atSlot, window))), HistoryOf(w),
                        network, protocol, poolId, window, atSlot)
  {
    forall x | x in w.history ensures SeparatorFree(x) {
      HistorySeparatorFree(w, x);
    }
    ListReportsOnce(moves, HistoryOf(w), network, protocol, poolId, window, atSlot);
  }

  /** In every world of every run, unless a rollback is pending, the volume reports every move of the
      pool in the window that the events say was recorded, each once, and no other. */
  lemma VolumeReportsRecorded(worlds: seq<World>, events: seq<Event>, window: uint64,
                              network: string, protocol: string, poolId: string, atSlot: uint64)
    requires IsRun(worlds, events, window)
    requires worlds[|events|].bound == NO_BOUND && atSlot >= worlds[|events|].high
    requires ':' !in network && ':' !in protocol && ChainSeparatorFree(worlds[|events|].chain)
    ensures ReportsOnce(VolumeAt(worlds[|events|].m.tracker, PoolKey(network, protocol, poolId), atSlot),
                        RecordedMoves(events), network, protocol, poolId, window, atSlot)
  {
    var key := PoolKey(network, protocol, poolId);
    RunsOk(worlds, events, window);
    HistoryListed(worlds, events, window, key);
    VolumeFromEvents(worlds, events, window, key, atSlot);
    RecordedMovesAre(worlds, events, window);
    ListedReports(worlds[|events|], MovesBy(events, key), network, protocol, poolId, window, atSlot);
  }

  /** As long as nothing tracked is rolled back, these are all the swap-shaped moves of the pool on
      the chain. */
  lemma VolumeReportsChain(worlds: seq<World>, events: seq<Event>, window: uint64,
                           network: string, protocol: string, poolId: string, atSlot: uint64)
    requires IsRun(worlds, events, window) && atSlot >= worlds[|events|].high
    requires forall i :: 0 <= i < |events| ==> OracleVolume.LosesNothing(worlds[i], events[i])
    requires ':' !in network && ':' !in protocol && ChainSeparatorFree(worlds[|events|].chain)
    ensures ReportsOnce(VolumeAt(worlds[|events|].m.tracker, PoolKey(network, protocol, poolId), atSlot),
                        ChainMoves(worlds[|events|].chain), network, protocol, poolId, window, atSlot)
  {
    var w := worlds[|events|];
    RunsOk(worlds, events, window);
    OracleVolume.CompleteRun(worlds, events, window);
    forall x ensures IsChainSwap(w.chain, x) <==> x in w.history {
      if IsChainSwap(w.chain, x) {
        var j :| 0 <= j < |w.chain| && MoveAt(w.chain, j) == Swap(x);
        assert OracleVolume.MoveRecorded(w.chain, w.history, j);
      }
    }
    RecordedMovesAre(worlds, events, window);
    assert RecordedMoves(events) == ChainMoves(w.chain);
    VolumeReportsRecorded(worlds, events, window, network, protocol, poolId, atSlot);
  }
}
