/** The reported volume against the chain: over every run it is the turnover of the recorded moves,
    and as long as nothing tracked is rolled back every swap-shaped move is recorded. */
module OracleVolume {
  import opened Words
  import opened Dex
  import opened ActivityLists
  import opened ActivityRestore
  import opened ActivitySpec
  import opened ActivityStore
  import opened OracleRuns

  // ----- the moves of one pool -----

  /** All swap-shaped moves of one pool along the chain. */
  ghost function SwapsOnChain(chain: seq<PoolState>, key: string): seq<SwapTransition> {
    if chain == [] then []
    else
      var n := |chain| - 1;
      SwapsOnChain(chain[..n], key) +
      match MoveAt(chain, n)
      case Swap(x) => if x.Key() == key then [x] else []
      case _ => []
  }

  lemma ChainSwapLast(chain: seq<PoolState>, n: nat, x: SwapTransition)
    requires |chain| == n + 1
    ensures IsChainSwap(chain, x) <==> IsChainSwap(chain[..n], x) || MoveAt(chain, n) == Swap(x)
  {
    if IsChainSwap(chain, x) {
      var j :| 0 <= j < |chain| && MoveAt(chain, j) == Swap(x);
      if j < n {
        MovesBefore(chain, n, j);
      }
    }
    if IsChainSwap(chain[..n], x) {
      var j :| 0 <= j < n && MoveAt(chain[..n], j) == Swap(x);
      MovesBefore(chain, n, j);
    }
  }

  lemma ListedLast(chain: seq<PoolState>, key: string, x: SwapTransition)
    requires chain != []
    requires x in SwapsOnChain(chain[..|chain| - 1], key) <==> IsChainSwap(chain[..|chain| - 1], x) && x.Key() == key
    ensures x in SwapsOnChain(chain, key) <==> IsChainSwap(chain, x) && x.Key() == key
  {
    ChainSwapLast(chain, |chain| - 1, x);
  }

  lemma {:induction false} SwapsOnChainListed(chain: seq<PoolState>, key: string)
    requires ChainOk(chain)
    ensures forall x :: x in SwapsOnChain(chain, key) <==> IsChainSwap(chain, x) && x.Key() == key
  {
    if chain != [] {
      var n := |chain| - 1;
      ChainPrefix(chain, n);
      SwapsOnChainListed(chain[..n], key);
      forall x ensures x in SwapsOnChain(chain, key) <==> IsChainSwap(chain, x) && x.Key() == key {
        ListedLast(chain, key, x);
      }
    }
  }

  lemma {:induction false} SwapsOnChainOrdered(chain: seq<PoolState>, key: string)
    requires ChainOk(chain)
    ensures SlotSorted(SwapsOnChain(chain, key)) && DistinctIdentities(SwapsOnChain(chain, key))
  {
    if chain != [] {
      var n := |chain| - 1;
      ChainPrefix(chain, n);
      SwapsOnChainOrdered(chain[..n], key);
      SwapsOnChainListed(chain[..n], key);
      var rest := SwapsOnChain(chain[..n], key);
      if MoveAt(chain, n).Swap? {
        var x := MoveAt(chain, n).swap;
        forall i | 0 <= i < |rest| ensures rest[i].slot <= x.slot && rest[i].Identity() != x.Identity() {
          assert rest[i] in rest;
          var j := ChainSwapNamed(chain[..n], rest[i]);
          assert chain[..n][j] == chain[j] && Follows(chain, j, n);
          InferenceIsExact(LastOf(chain[..n], chain[n].poolId).value, chain[n], x);
        }
      }
    }
  }

  // ----- the recorded moves -----

  /** The swaps of a list that were recorded when they were delivered. */
  ghost function RecordedOf(s: seq<SwapTransition>, history: set<SwapTransition>): seq<SwapTransition> {
    if s == [] then []
    else RecordedOf(s[..|s| - 1], history) + if s[|s| - 1] in history then [s[|s| - 1]] else []
  }

  lemma {:induction false} RecordedOfSome(s: seq<SwapTransition>, history: set<SwapTransition>)
    ensures forall x :: x in RecordedOf(s, history) <==> x in s && x in history
  {
    if s != [] {
      RecordedOfSome(s[..|s| - 1], history);
      assert s == s[..|s| - 1] + [s[|s| - 1]];
    }
  }

  lemma {:induction false} RecordedOfOrdered(s: seq<SwapTransition>, history: set<SwapTransition>)
    requires SlotSorted(s) && DistinctIdentities(s)
    ensures SlotSorted(RecordedOf(s, history)) && DistinctIdentities(RecordedOf(s, history))
  {
    if s != [] {
      var rest, last := s[..|s| - 1], s[|s| - 1];
      RecordedOfOrdered(rest, history);
      RecordedOfSome(rest, history);
      var kept := RecordedOf(rest, history);
      forall i | 0 <= i < |kept| ensures kept[i].slot <= last.slot && kept[i].Identity() != last.Identity() {
        assert kept[i] in rest;
      }
    }
  }

  lemma {:induction false} RecordedOfAll(s: seq<SwapTransition>, history: set<SwapTransition>)
    requires forall x :: x in s ==> x in history
    ensures RecordedOf(s, history) == s
  {
    if s != [] {
      assert s == s[..|s| - 1] + [s[|s| - 1]];
      RecordedOfAll(s[..|s| - 1], history);
    }
  }

  lemma RecordedInWindow(w: World, key: string, c: int, x: SwapTransition)
    requires WorldOk(w) && w.bound == NO_BOUND && Cutoff(w.high, w.m.tracker.window) <= c && x.slot >= c
    ensures x in At(w.m.tracker.swaps, key) <==> x in w.history && x.Key() == key
  {
    assert ListOk(At(w.m.tracker.swaps, key), key, Cutoff(w.m.tracker.latest, w.m.tracker.window), w.m.tracker.latest);
    RetainedIff(w, x);
  }

  /** In every world of every run, unless a rollback is pending, the reported volume is the turnover
      of the pool's recorded moves on the current chain in the window: across rollbacks, pruning and
      restarts. */
  lemma VolumeIsRecordedTurnover(worlds: seq<World>, events: seq<Event>, window: uint64, key: string, atSlot: uint64)
    requires IsRun(worlds, events, window)
    requires worlds[|events|].bound == NO_BOUND && atSlot >= worlds[|events|].high
    ensures var w := worlds[|events|];
            VolumeAt(w.m.tracker, key, atSlot)
            == TurnoverOf(Since(RecordedOf(SwapsOnChain(w.chain, key), w.history), Cutoff(atSlot, window)))
  {
    RunsOk(worlds, events, window);
    var w := worlds[|events|];
    var c := Cutoff(atSlot, window);
    assert Cutoff(w.high, window) <= c;
    var a, moves := At(w.m.tracker.swaps, key), SwapsOnChain(w.chain, key);
    var b := RecordedOf(moves, w.history);
    assert ListOk(a, key, Cutoff(w.m.tracker.latest, window), w.m.tracker.latest);
    SwapsOnChainOrdered(w.chain, key);
    SwapsOnChainListed(w.chain, key);
    RecordedOfOrdered(moves, w.history);
    RecordedOfSome(moves, w.history);
    forall x: SwapTransition | x.slot >= c ensures x in a <==> x in b {
      RecordedInWindow(w, key, c, x);
    }
    TurnoverOfSameWindow(a, b, c);
  }

  // ----- runs in which nothing tracked is rolled back -----

  /** Deliveries, restarts, and rollbacks to the tip or above it, as a restart at the tip sends. */
  ghost predicate LosesNothing(w: World, e: Event) {
    match e
    case Delivery(_, _, _) => true
    case Crash => true
    case RollbackTo(slot) => slot < MAX_UINT64 && forall i :: 0 <= i < |w.chain| ==> w.chain[i].slot <= slot
    case CrashInRollback(_, _, _) => false
  }

  ghost predicate Complete(w: World) {
    && w.bound == NO_BOUND
    && (forall i :: 0 <= i < |w.chain| ==> w.chain[i].poolId in w.m.pools)
    && (forall j :: 0 <= j < |w.chain| ==> MoveRecorded(w.chain, w.history, j))
  }

  predicate MoveRecorded(chain: seq<PoolState>, history: set<SwapTransition>, j: nat)
    requires j < |chain|
  {
    MoveAt(chain, j).Swap? ==> MoveAt(chain, j).swap in history
  }

  lemma MoveIsRecorded(w: World, state: PoolState, j: nat)
    requires WorldOk(w) && Complete(w) && state.slot >= w.floor && ChainOk(w.chain + [state]) && j <= |w.chain|
    ensures MoveRecorded(w.chain + [state], w.history + Recorded(w, state), j)
  {
    var longer, n := w.chain + [state], |w.chain|;
    assert longer[..n] == w.chain && longer[n] == state;
    if j < n {
      MovesBefore(longer, n, j);
      assert MoveRecorded(w.chain, w.history, j);
    } else {
      DeliveryAccepted(w, state);
      LastOfIsOnChain(w.chain, state.poolId);
      assert Tracked(w.m.pools, state.poolId) == LastOf(w.chain, state.poolId);
    }
  }

  lemma CompleteDelivery(w: World, e: Event, w': World)
    requires WorldOk(w) && Complete(w) && e.Delivery? && Step(w, e, w')
    ensures Complete(w')
  {
    forall j | 0 <= j < |w'.chain| ensures MoveRecorded(w'.chain, w'.history, j) {
      MoveIsRecorded(w, e.state, j);
    }
  }

  lemma StaysRecorded(w: World, slot: uint64, history: set<SwapTransition>, j: nat)
    requires WorldOk(w) && Complete(w) && j < |w.chain| && slot < MAX_UINT64 && w.chain[j].slot <= slot
    requires forall x :: x in w.history && x.slot < FirstRolledBackSlot(slot) ==> x in history
    ensures MoveRecorded(w.chain, history, j)
  {
    assert MoveRecorded(w.chain, w.history, j);
    if MoveAt(w.chain, j).Swap? {
      InferenceIsExact(LastOf(w.chain[..j], w.chain[j].poolId).value, w.chain[j], MoveAt(w.chain, j).swap);
    }
  }

  lemma CompleteRollback(w: World, e: Event, w': World)
    requires WorldOk(w) && Complete(w) && e.RollbackTo? && LosesNothing(w, e) && Step(w, e, w')
    ensures Complete(w')
  {
    var n := UpToIsPrefix(w.chain, e.slot);
    assert w'.chain == w.chain;
    forall j | 0 <= j < |w.chain| ensures MoveRecorded(w.chain, w'.history, j) {
      StaysRecorded(w, e.slot, w'.history, j);
    }
    forall i | 0 <= i < |w.chain| ensures w.chain[i].poolId in w'.m.pools {
      LastOfIsOnChain(w.chain, w.chain[i].poolId);
    }
  }

  lemma CompleteCrash(w: World, e: Event, w': World)
    requires WorldOk(w) && Complete(w) && e.Crash? && Step(w, e, w')
    ensures Complete(w')
  {
    RestartPools(w.chain, w.m.pools, w.m.disk.pools, w'.m.pools);
    forall i | 0 <= i < |w.chain| ensures w.chain[i].poolId in w'.m.pools {
      var p := w.chain[i].poolId;
      LastOfIsOnChain(w.chain, p);
      assert w.m.disk.pools[StateKey(w.m.pools[p])].poolId == p;
    }
  }

  lemma CompleteStep(w: World, e: Event, w': World)
    requires WorldOk(w) && Complete(w) && LosesNothing(w, e) && Step(w, e, w')
    ensures Complete(w')
  {
    match e {
      case Delivery(_, _, _) => CompleteDelivery(w, e, w');
      case RollbackTo(_) => CompleteRollback(w, e, w');
      case Crash => CompleteCrash(w, e, w');
    }
  }

  lemma {:induction false} CompleteRun(worlds: seq<World>, events: seq<Event>, window: uint64)
    requires IsRun(worlds, events, window)
    requires forall i :: 0 <= i < |events| ==> LosesNothing(worlds[i], events[i])
    ensures Complete(worlds[|events|])
  {
    var n := |events|;
    if n > 0 {
      CompleteRun(worlds[..n], events[..n - 1], window);
      RunsOk(worlds[..n], events[..n - 1], window);
      CompleteStep(worlds[n - 1], events[n - 1], worlds[n]);
    }
  }

  /** As long as nothing tracked was rolled back every swap-shaped move is recorded, and the reported
      volume is the turnover of all of them. */
  lemma VolumeIsChainTurnover(worlds: seq<World>, events: seq<Event>, window: uint64, key: string, atSlot: uint64)
    requires IsRun(worlds, events, window)
    requires forall i :: 0 <= i < |events| ==> LosesNothing(worlds[i], events[i])
    requires atSlot >= worlds[|events|].high
    ensures var w := worlds[|events|];
            VolumeAt(w.m.tracker, key, atSlot) == TurnoverOf(Since(SwapsOnChain(w.chain, key), Cutoff(atSlot, window)))
  {
    RunsOk(worlds, events, window);
    CompleteRun(worlds, events, window);
    var w := worlds[|events|];
    SwapsOnChainListed(w.chain, key);
    forall x | x in SwapsOnChain(w.chain, key) ensures x in w.history {
      var j :| 0 <= j < |w.chain| && MoveAt(w.chain, j) == Swap(x);
      assert MoveRecorded(w.chain, w.history, j);
    }
    RecordedOfAll(SwapsOnChain(w.chain, key), w.history);
    VolumeIsRecordedTurnover(worlds, events, window, key, atSlot);
  }
}
