/** The oracle as one machine: tracked pools, the activity tracker and the disk, driven by
    deliveries, rollbacks and crashes (internal/oracle/oracle.go). A world adds what only the
    chain knows: the delivered states still on it, the swaps recorded for them, and the highest
    slot ever delivered. */
module OracleRuns {
  import opened Words
  import opened Dex
  import opened ActivityRestore
  import opened ActivitySpec
  import opened ActivityStore

  datatype Machine = Machine(pools: map<string, PoolState>, tracker: Tracker, disk: Disk)

  // ----- the machine's steps -----

  function Tracked(pools: map<string, PoolState>, poolId: string): Option<PoolState> {
    if poolId in pools then Some(pools[poolId]) else None
  }

  /** handleTransaction for one pool output whose activity is accepted and whose write commits. */
  ghost predicate Handled(m: Machine, state: PoolState, maxCount: int, maxSize: int, m': Machine) {
    var o := ObserveTransition(m.tracker, Tracked(m.pools, state.poolId), Some(state));
    && o.result.Ok?
    && m'.tracker == o.tracker
    && m'.pools == m.pools[state.poolId := state]
    && Saved(m.disk, state, o.result.value, m.tracker.window, maxCount, maxSize, m'.disk)
  }

  /** firstRolledBackSlot: the rollback point itself stays on the chain. */
  function FirstRolledBackSlot(slot: uint64): uint64 { if slot == MAX_UINT64 then slot else slot + 1 }

  function SurvivingPools(pools: map<string, PoolState>, first: uint64): map<string, PoolState> {
    map p | p in pools && pools[p].slot < first :: pools[p]
  }

  function InvalidatedKeys(pools: map<string, PoolState>, first: uint64): set<string> {
    set p | p in pools && pools[p].slot >= first :: StateKey(pools[p])
  }

  /** handleRollback when every durable write commits. */
  function RolledBackMachine(m: Machine, slot: uint64): Machine {
    var first := FirstRolledBackSlot(slot);
    var disk := RolledBackDisk(m.disk, first);
    Machine(SurvivingPools(m.pools, first), Rollback(m.tracker, first),
            disk.(pools := disk.pools - InvalidatedKeys(m.pools, first)))
  }

  ghost predicate PoolsLoaded(stored: map<string, PoolState>, pools: map<string, PoolState>) {
    && (forall k :: k in stored ==> stored[k].poolId in pools)
    && (forall p :: p in pools ==> exists k :: k in stored && stored[k] == pools[p] && pools[p].poolId == p)
  }

  /** loadPersistedStates after a restart. */
  ghost predicate Restarted(disk: Disk, window: uint64, m': Machine) {
    && m'.disk == disk
    && PoolsLoaded(disk.pools, m'.pools)
    && exists state ::
         && LoadedFrom(disk, state)
         && if state.window == 0 then m'.tracker == Tracker(window, 0, map[])
            else Restored(Tracker(window, 0, map[]), state) == Ok(m'.tracker)
  }

  // ----- the chain -----

  function LastOf(chain: seq<PoolState>, poolId: string): Option<PoolState> {
    if chain == [] then None
    else if chain[|chain| - 1].poolId == poolId then Some(chain[|chain| - 1])
    else LastOf(chain[..|chain| - 1], poolId)
  }

  /** How the chain moved when its j-th state was delivered. */
  function MoveAt(chain: seq<PoolState>, j: nat): Inference
    requires j < |chain|
  {
    InferSwapTransition(LastOf(chain[..j], chain[j].poolId), Some(chain[j]))
  }

  ghost predicate IsChainSwap(chain: seq<PoolState>, swap: SwapTransition) {
    exists j :: 0 <= j < |chain| && MoveAt(chain, j) == Swap(swap)
  }

  predicate SameIdentity(a: PoolState, b: PoolState) {
    && a.network == b.network && a.protocol == b.protocol
    && a.assetX.cls == b.assetX.cls && a.assetY.cls == b.assetY.cls
  }

  predicate NamedState(p: PoolState) { ':' !in p.txHash && '\0' !in p.network && '\0' !in p.protocol }

  /** Confirmed states with slots that never decrease; one output is delivered once, and a pool
      keeps its identity and assets. */
  ghost predicate ChainOk(chain: seq<PoolState>) {
    && (forall i :: 0 <= i < |chain| ==> ConfirmedPool(chain[i]) && NamedState(chain[i]))
    && (forall i, j :: 0 <= i < j < |chain| ==> Follows(chain, i, j))
  }

  predicate Follows(chain: seq<PoolState>, i: nat, j: nat)
    requires i < j < |chain|
  {
    && chain[i].slot <= chain[j].slot
    && (chain[i].txHash != chain[j].txHash || chain[i].txIndex != chain[j].txIndex)
    && (chain[i].poolId == chain[j].poolId ==> SameIdentity(chain[i], chain[j]))
    && (StateKey(chain[i]) == StateKey(chain[j]) ==> chain[i].poolId == chain[j].poolId)
  }

  /** The chain up to a slot. */
  function UpTo(chain: seq<PoolState>, slot: uint64): seq<PoolState> {
    if chain != [] && chain[|chain| - 1].slot > slot then UpTo(chain[..|chain| - 1], slot) else chain
  }

  // ----- worlds -----

  const NO_BOUND: int := MAX_UINT64 + 1

  /** `floor` is the lowest slot the next delivery may have. `bound` is below NO_BOUND after a crash
      in the middle of a rollback: what lies at or above it may be partly gone, and a rollback to
      below it has to come before the next delivery. */
  datatype World = World(
    m: Machine, chain: seq<PoolState>, history: set<SwapTransition>, high: uint64, floor: int, bound: int)

  datatype Event =
    | Delivery(state: PoolState, maxCount: int, maxSize: int)
    | RollbackTo(slot: uint64)
    | Crash
    | CrashInRollback(slot: uint64, disks: seq<Disk>, deleted: set<string>)

  ghost predicate Initial(w: World, window: uint64) {
    && window > 0
    && w == World(Machine(map[], Tracker(window, 0, map[]), Disk(None, map[], map[])), [], {}, 0, 0, NO_BOUND)
  }

  function Recorded(w: World, state: PoolState): set<SwapTransition> {
    var r := ObserveTransition(w.m.tracker, Tracked(w.m.pools, state.poolId), Some(state)).result;
    if r.Ok? && r.value.Some? then {r.value.value} else {}
  }

  /** The disk a crash left behind after some batches of a rollback, or after all of them and some
      of the deletions of pool states. */
  ghost predicate LeftBehind(before: Machine, slot: uint64, disks: seq<Disk>, deleted: set<string>) {
    var first := FirstRolledBackSlot(slot);
    && Interrupted(disks, first) && disks[0] == before.disk
    && deleted <= InvalidatedKeys(before.pools, first)
    && (deleted != {} ==> disks[|disks| - 1] == RolledBackDisk(before.disk, first))
  }

  function Remaining(disks: seq<Disk>, deleted: set<string>): Disk
    requires disks != []
  {
    disks[|disks| - 1].(pools := disks[|disks| - 1].pools - deleted)
  }

  ghost predicate Allowed(w: World, e: Event) {
    match e
    case Delivery(state, _, _) => w.bound == NO_BOUND && state.slot >= w.floor && ChainOk(w.chain + [state])
    case RollbackTo(slot) => FirstRolledBackSlot(slot) <= w.bound
    case Crash => true
    case CrashInRollback(slot, disks, deleted) =>
      FirstRolledBackSlot(slot) <= w.bound && LeftBehind(w.m, slot, disks, deleted)
  }

  ghost predicate Step(w: World, e: Event, w': World) {
    && Allowed(w, e)
    && match e
       case Delivery(state, maxCount, maxSize) =>
         && Handled(w.m, state, maxCount, maxSize, w'.m)
         && w' == World(w'.m, w.chain + [state], w.history + Recorded(w, state), Max(w.high, state.slot), state.slot, NO_BOUND)
       case RollbackTo(slot) =>
         w' == World(RolledBackMachine(w.m, slot), UpTo(w.chain, slot),
                     (set e | e in w.history && e.slot < FirstRolledBackSlot(slot)), w.high, slot + 1, NO_BOUND)
       case Crash =>
         Restarted(w.m.disk, w.m.tracker.window, w'.m) && w' == w.(m := w'.m)
       case CrashInRollback(slot, disks, deleted) =>
         && Restarted(Remaining(disks, deleted), w.m.tracker.window, w'.m)
         && w' == w.(m := w'.m, bound := FirstRolledBackSlot(slot))
  }

  // ----- the invariant -----

  /** A set of retained swaps lies between the window of the high-water mark and the history. */
  ghost predicate Retains(w: World, kept: iset<SwapTransition>) {
    && (forall e :: e in kept ==> e in w.history)
    && (forall e :: e in w.history && e.slot >= Cutoff(w.high, w.m.tracker.window) && e.slot < w.bound ==> e in kept)
  }

  ghost function InMemory(t: Tracker): iset<SwapTransition> { iset e: SwapTransition | e in At(t.swaps, e.Key()) }

  ghost function OnDisk(d: Disk): iset<SwapTransition> { iset e | Stored(d, e) }

  ghost predicate PoolsMirrored(w: World) {
    && (forall p :: p in w.m.pools ==> LastOf(w.chain, p) == Some(w.m.pools[p]))
    && (forall p :: p in w.m.pools ==>
          StateKey(w.m.pools[p]) in w.m.disk.pools && w.m.disk.pools[StateKey(w.m.pools[p])] == w.m.pools[p])
    && (forall k :: k in w.m.disk.pools ==>
          var p := w.m.disk.pools[k];
          k == StateKey(p) && p.poolId in w.m.pools && w.m.pools[p.poolId] == p)
  }

  /** The recorded tips are behind the highest slot and the next delivery, and the windows agree. */
  predicate TipsOk(w: World) {
    && (w.m.disk.meta.Some? ==>
          && w.m.disk.meta.value.window == w.m.tracker.window
          && w.m.disk.meta.value.latest <= w.high && w.m.disk.meta.value.latest <= w.floor)
    && w.m.tracker.latest <= w.high && w.m.tracker.latest <= w.floor && w.bound <= NO_BOUND
  }

  predicate ChainBelow(w: World) {
    forall i :: 0 <= i < |w.chain| ==> w.chain[i].slot <= w.high && w.chain[i].slot <= w.floor
  }

  ghost predicate HistoryOnChain(w: World) { forall e :: e in w.history ==> IsChainSwap(w.chain, e) }

  ghost predicate WorldOk(w: World) {
    && TrackerOk(w.m.tracker) && DiskOk(w.m.disk) && ChainOk(w.chain)
    && TipsOk(w) && ChainBelow(w) && HistoryOnChain(w)
    && Retains(w, InMemory(w.m.tracker)) && Retains(w, OnDisk(w.m.disk))
    && PoolsMirrored(w)
  }

  /** Inside the window of the highest slot, unless a rollback is pending, memory, disk and history
      hold the same swaps. */
  lemma RetainedIff(w: World, x: SwapTransition)
    requires Retains(w, InMemory(w.m.tracker)) && Retains(w, OnDisk(w.m.disk)) && w.bound == NO_BOUND
    requires x.slot >= Cutoff(w.high, w.m.tracker.window)
    ensures x in InMemory(w.m.tracker) <==> x in w.history
    ensures Stored(w.m.disk, x) <==> x in w.history
    ensures x in At(w.m.tracker.swaps, x.Key()) <==> x in w.history
  {
    assert x in OnDisk(w.m.disk) <==> Stored(w.m.disk, x);
    assert x in InMemory(w.m.tracker) <==> x in At(w.m.tracker.swaps, x.Key());
  }

  // ----- chain lemmas -----

  lemma {:induction false} LastOfIsOnChain(chain: seq<PoolState>, poolId: string)
    ensures LastOf(chain, poolId).Some? ==> LastOf(chain, poolId).value in chain && LastOf(chain, poolId).value.poolId == poolId
    ensures LastOf(chain, poolId).None? ==> forall i :: 0 <= i < |chain| ==> chain[i].poolId != poolId
  {
    if chain != [] && chain[|chain| - 1].poolId != poolId {
      LastOfIsOnChain(chain[..|chain| - 1], poolId);
    }
  }

  lemma MovesBefore(chain: seq<PoolState>, n: nat, j: nat)
    requires j < n <= |chain|
    ensures MoveAt(chain[..n], j) == MoveAt(chain, j)
  {
    assert chain[..n][..j] == chain[..j];
  }

  lemma ChainSwapNamed(chain: seq<PoolState>, swap: SwapTransition) returns (j: nat)
    requires ChainOk(chain) && IsChainSwap(chain, swap)
    ensures j < |chain| && MoveAt(chain, j) == Swap(swap)
    ensures swap.slot == chain[j].slot && swap.txHash == chain[j].txHash && swap.txIndex == chain[j].txIndex
    ensures WellNamed(swap) && ValidSwap(swap, chain[j].slot)
  {
    j :| 0 <= j < |chain| && MoveAt(chain, j) == Swap(swap);
    InferenceIsExact(LastOf(chain[..j], chain[j].poolId).value, chain[j], swap);
  }

  lemma {:induction false} UpToIsPrefix(chain: seq<PoolState>, slot: uint64) returns (n: nat)
    requires ChainOk(chain)
    ensures n <= |chain| && UpTo(chain, slot) == chain[..n]
    ensures forall i :: 0 <= i < |chain| ==> (i < n <==> chain[i].slot <= slot)
  {
    var last := |chain| - 1;
    if chain != [] && chain[last].slot > slot {
      var rest := chain[..last];
      ChainPrefix(chain, last);
      n := UpToIsPrefix(rest, slot);
      assert forall i :: 0 <= i < |rest| ==> rest[i] == chain[i];
      assert chain[..n] == rest[..n];
    } else {
      n := |chain|;
      assert chain == chain[..n];
      forall i | 0 <= i < |chain| ensures chain[i].slot <= slot {
        assert i < last ==> Follows(chain, i, last);
      }
    }
  }

  lemma ChainPrefix(chain: seq<PoolState>, n: nat)
    requires ChainOk(chain) && n <= |chain|
    ensures ChainOk(chain[..n])
  {
    forall i, j | 0 <= i < j < n ensures Follows(chain[..n], i, j) {
      assert Follows(chain, i, j);
    }
  }

  /** What a delivered state has to do with one already on the chain. */
  lemma FollowsDelivered(chain: seq<PoolState>, state: PoolState, i: nat)
    requires ChainOk(chain + [state]) && i < |chain|
    ensures chain[i].txHash != state.txHash || chain[i].txIndex != state.txIndex
    ensures chain[i].poolId == state.poolId ==> SameIdentity(chain[i], state)
    ensures StateKey(chain[i]) == StateKey(state) ==> chain[i].poolId == state.poolId
    ensures ConfirmedPool(state) && NamedState(state)
  {
    var longer := chain + [state];
    assert Follows(longer, i, |chain|);
    assert longer[i] == chain[i] && longer[|chain|] == state;
  }

  lemma {:induction false} LastOfPrefix(chain: seq<PoolState>, n: nat, poolId: string)
    requires n <= |chain|
    requires LastOf(chain, poolId).Some? && LastOf(chain, poolId).value in chain[..n]
    requires ChainOk(chain)
    ensures LastOf(chain[..n], poolId) == LastOf(chain, poolId)
  {
    if n == |chain| {
      assert chain[..n] == chain;
    } else {
      var last := |chain| - 1;
      var rest := chain[..last];
      ChainPrefix(chain, last);
      forall i | 0 <= i < n ensures chain[..n][i] != chain[last] {
        assert Follows(chain, i, last);
      }
      assert rest[..n] == chain[..n];
      LastOfPrefix(rest, n, poolId);
    }
  }

  // ----- deliveries -----

  /** What the chain rules out: a mismatching pool, a repeated swap identity, a key collision. */
  lemma DeliveryIsNew(w: World, state: PoolState, swap: SwapTransition)
    requires WorldOk(w) && ChainOk(w.chain + [state])
    requires swap.txHash == state.txHash && swap.txIndex == state.txIndex
    ensures forall e :: e in w.history ==> e.Identity() != swap.Identity()
  {
    forall e | e in w.history ensures e.Identity() != swap.Identity() {
      var j := ChainSwapNamed(w.chain, e);
      FollowsDelivered(w.chain, state, j);
    }
  }

  lemma TrackedIsLast(w: World, state: PoolState)
    requires WorldOk(w) && ChainOk(w.chain + [state])
    ensures var prev := Tracked(w.m.pools, state.poolId);
            prev.Some? ==> prev == LastOf(w.chain, state.poolId) && SamePool(prev.value, state) && !prev.value.fromMempool
  {
    var prev := Tracked(w.m.pools, state.poolId);
    if prev.Some? {
      LastOfIsOnChain(w.chain, state.poolId);
      var i :| 0 <= i < |w.chain| && w.chain[i] == prev.value;
      FollowsDelivered(w.chain, state, i);
    }
  }

  /** No in-order delivery is refused: not as out of order, not as a mismatch, not as a conflict. */
  lemma DeliveryAccepted(w: World, state: PoolState)
    requires WorldOk(w) && state.slot >= w.floor && ChainOk(w.chain + [state])
    ensures var o := ObserveTransition(w.m.tracker, Tracked(w.m.pools, state.poolId), Some(state));
            && o.result.Ok?
            && (o.result.value.Some? <==>
                  InferSwapTransition(Tracked(w.m.pools, state.poolId), Some(state)).Swap?)
            && (o.result.value.Some? ==>
                  InferSwapTransition(Tracked(w.m.pools, state.poolId), Some(state)) == Swap(o.result.value.value))
  {
    var prev := Tracked(w.m.pools, state.poolId);
    TrackedIsLast(w, state);
    assert (w.chain + [state])[|w.chain|] == state;
    var inference := InferSwapTransition(prev, Some(state));
    if inference.Swap? {
      var swap := inference.swap;
      InferenceIsExact(prev.value, state, swap);
      DeliveryIsNew(w, state, swap);
      forall e | e in At(w.m.tracker.swaps, swap.Key()) ensures e.Identity() != swap.Identity() {
        assert e.Key() == swap.Key();
        assert e in InMemory(w.m.tracker);
      }
    }
  }

  lemma WindowsAgree(w: World, state: PoolState)
    ensures Cutoff(state.slot, w.m.tracker.window) <= Cutoff(Max(w.high, state.slot), w.m.tracker.window)
    ensures Cutoff(w.high, w.m.tracker.window) <= Cutoff(Max(w.high, state.slot), w.m.tracker.window)
  {
  }

  lemma DeliveryRetains(w: World, e: Event, w': World)
    requires WorldOk(w) && e.Delivery? && Step(w, e, w')
    ensures TrackerOk(w'.m.tracker) && w'.m.tracker.window == w.m.tracker.window
    ensures w'.m.tracker.latest == e.state.slot
    ensures forall x :: x in InMemory(w'.m.tracker) <==>
                        (x in InMemory(w.m.tracker) && x.slot >= Cutoff(e.state.slot, w.m.tracker.window))
                        || x in Recorded(w, e.state)
  {
    assert (w.chain + [e.state])[|w.chain|] == e.state;
    ObserveTransitionOk(w.m.tracker, Tracked(w.m.pools, e.state.poolId), e.state);
  }

  lemma DeliveryInMemory(w: World, e: Event, w': World)
    requires WorldOk(w) && e.Delivery? && Step(w, e, w')
    ensures TrackerOk(w'.m.tracker) && w'.m.tracker.window == w.m.tracker.window
    ensures w'.m.tracker.latest == e.state.slot
    ensures Retains(w', InMemory(w'.m.tracker))
  {
    DeliveryRetains(w, e, w');
    WindowsAgree(w, e.state);
    assert Retains(w, InMemory(w.m.tracker));
  }

  /** The table a save writes, before it prunes. */
  lemma SavedTable(w: World, state: PoolState, swap: Option<SwapTransition>)
    requires WorldOk(w) && ChainOk(w.chain + [state])
    requires swap.Some? ==> swap.value.txHash == state.txHash && swap.value.txIndex == state.txIndex && WellNamed(swap.value)
    ensures var table := if swap.Some? then w.m.disk.swaps[ActivityKey(swap.value) := swap.value] else w.m.disk.swaps;
            && WellKeyed(table)
            && forall x :: (ActivityKey(x) in table && table[ActivityKey(x)] == x) <==> Stored(w.m.disk, x) || Some(x) == swap
  {
    if swap.Some? {
      var key := ActivityKey(swap.value);
      if key in w.m.disk.swaps {
        var y := w.m.disk.swaps[key];
        assert y in OnDisk(w.m.disk);
        var j := ChainSwapNamed(w.chain, y);
        KeyInjective(y, swap.value);
        DeliveryIsNew(w, state, swap.value);
      }
    }
  }

  /** After a save the stored swaps are the old ones and the new one, up to what fell out of the
      window. */
  lemma SavedStores(w: World, state: PoolState, swap: Option<SwapTransition>, maxCount: int, maxSize: int, after: Disk)
    requires WorldOk(w) && ChainOk(w.chain + [state])
    requires swap.Some? ==> swap.value.txHash == state.txHash && swap.value.txIndex == state.txIndex && WellNamed(swap.value)
    requires Saved(w.m.disk, state, swap, w.m.tracker.window, maxCount, maxSize, after)
    ensures forall x :: Stored(after, x) ==> Stored(w.m.disk, x) || Some(x) == swap
    ensures forall x | (Stored(w.m.disk, x) || Some(x) == swap) && x.slot >= Cutoff(after.meta.value.latest, w.m.tracker.window) ::
              Stored(after, x)
  {
    SavedTable(w, state, swap);
    var table := if swap.Some? then w.m.disk.swaps[ActivityKey(swap.value) := swap.value] else w.m.disk.swaps;
    var keys :| PruneSelection(table, Cutoff(after.meta.value.latest, w.m.tracker.window), maxCount, maxSize, keys)
                && after.swaps == Without(table, keys);
    forall x | (Stored(w.m.disk, x) || Some(x) == swap) && x.slot >= Cutoff(after.meta.value.latest, w.m.tracker.window)
      ensures Stored(after, x)
    {
      assert ActivityKey(x) !in keys;
    }
  }

  /** What the machine saves for a delivery. */
  lemma DeliverySaves(w: World, e: Event, w': World) returns (swap: Option<SwapTransition>)
    requires WorldOk(w) && e.Delivery? && Step(w, e, w')
    ensures Saved(w.m.disk, e.state, swap, w.m.tracker.window, e.maxCount, e.maxSize, w'.m.disk)
    ensures Recorded(w, e.state) == if swap.Some? then {swap.value} else {}
    ensures swap.Some? ==>
      && swap.value.txHash == e.state.txHash && swap.value.txIndex == e.state.txIndex
      && WellNamed(swap.value) && ValidSwap(swap.value, e.state.slot)
  {
    assert (w.chain + [e.state])[|w.chain|] == e.state;
    var prev := Tracked(w.m.pools, e.state.poolId);
    swap := ObserveTransition(w.m.tracker, prev, Some(e.state)).result.value;
    DeliveryAccepted(w, e.state);
    TrackedIsLast(w, e.state);
    if swap.Some? {
      InferenceIsExact(prev.value, e.state, swap.value);
    }
  }

  lemma SavedRetains(w: World, state: PoolState, swap: Option<SwapTransition>, w': World)
    requires Retains(w, OnDisk(w.m.disk)) && w.bound == NO_BOUND && w'.bound == NO_BOUND
    requires w'.high == Max(w.high, state.slot) && w'.m.tracker.window == w.m.tracker.window
    requires w'.history == w.history + if swap.Some? then {swap.value} else {}
    requires w'.m.disk.meta.Some? && w'.m.disk.meta.value.latest <= w'.high
    requires forall x :: Stored(w'.m.disk, x) ==> Stored(w.m.disk, x) || Some(x) == swap
    requires forall x | (Stored(w.m.disk, x) || Some(x) == swap)
                        && x.slot >= Cutoff(w'.m.disk.meta.value.latest, w.m.tracker.window) :: Stored(w'.m.disk, x)
    ensures Retains(w', OnDisk(w'.m.disk))
  {
    WindowsAgree(w, state);
    assert Cutoff(w'.m.disk.meta.value.latest, w.m.tracker.window) <= Cutoff(w'.high, w.m.tracker.window);
    forall x
      ensures x in w'.history && x.slot >= Cutoff(w'.high, w.m.tracker.window) ==> Stored(w'.m.disk, x)
      ensures Stored(w'.m.disk, x) ==> x in w'.history
    {
      assert x in OnDisk(w.m.disk) <==> Stored(w.m.disk, x);
    }
  }

  lemma DeliveryOnDisk(w: World, e: Event, w': World)
    requires WorldOk(w) && e.Delivery? && Step(w, e, w')
    ensures DiskOk(w'.m.disk)
    ensures w'.m.disk.meta.Some? && w'.m.disk.meta.value.window == w.m.tracker.window
    ensures w'.m.disk.meta.value.latest == Max(e.state.slot, if w.m.disk.meta.Some? then w.m.disk.meta.value.latest else 0)
    ensures w'.m.tracker.window == w.m.tracker.window ==> Retains(w', OnDisk(w'.m.disk))
  {
    var swap := DeliverySaves(w, e, w');
    SaveKeepsOk(w.m.disk, e.state, swap, w.m.tracker.window, e.maxCount, e.maxSize, w'.m.disk);
    SavedStores(w, e.state, swap, e.maxCount, e.maxSize, w'.m.disk);
    if w'.m.tracker.window == w.m.tracker.window {
      SavedRetains(w, e.state, swap, w');
    }
  }

  lemma RecordedOnChain(w: World, state: PoolState, x: SwapTransition)
    requires WorldOk(w) && state.slot >= w.floor && ChainOk(w.chain + [state]) && x in Recorded(w, state)
    ensures MoveAt(w.chain + [state], |w.chain|) == Swap(x)
  {
    DeliveryAccepted(w, state);
    TrackedIsLast(w, state);
    assert (w.chain + [state])[..|w.chain|] == w.chain;
  }

  lemma ChainSwapStays(chain: seq<PoolState>, state: PoolState, x: SwapTransition)
    requires IsChainSwap(chain, x)
    ensures IsChainSwap(chain + [state], x)
  {
    var longer := chain + [state];
    var j :| 0 <= j < |chain| && MoveAt(chain, j) == Swap(x);
    assert longer[..|chain|] == chain;
    MovesBefore(longer, |chain|, j);
  }

  lemma DeliveryHistory(w: World, e: Event, w': World)
    requires WorldOk(w) && e.Delivery? && Step(w, e, w')
    ensures HistoryOnChain(w')
  {
    forall x | x in w'.history ensures IsChainSwap(w'.chain, x) {
      if x in w.history {
        ChainSwapStays(w.chain, e.state, x);
      } else {
        RecordedOnChain(w, e.state, x);
      }
    }
  }

  /** A pool other than the delivered one keeps its last state, under another key. */
  lemma OtherPool(chain: seq<PoolState>, state: PoolState, p: PoolState)
    requires ChainOk(chain + [state]) && LastOf(chain, p.poolId) == Some(p) && p.poolId != state.poolId
    ensures LastOf(chain + [state], p.poolId) == Some(p)
    ensures StateKey(p) != StateKey(state)
  {
    var chain' := chain + [state];
    assert chain'[|chain|] == state && chain'[..|chain|] == chain;
    LastOfIsOnChain(chain, p.poolId);
    var i :| 0 <= i < |chain| && chain[i] == p;
    FollowsDelivered(chain, state, i);
  }

  lemma SamePoolKey(chain: seq<PoolState>, state: PoolState, p: PoolState)
    requires ChainOk(chain + [state]) && LastOf(chain, p.poolId) == Some(p) && p.poolId == state.poolId
    ensures StateKey(p) == StateKey(state)
  {
    LastOfIsOnChain(chain, p.poolId);
    var i :| 0 <= i < |chain| && chain[i] == p;
    FollowsDelivered(chain, state, i);
  }

  lemma DeliveredKeys(w: World, state: PoolState, p: string)
    requires ChainOk(w.chain + [state]) && PoolsMirrored(w) && p in w.m.pools
    ensures w.m.pools[p].poolId == p
    ensures p != state.poolId ==>
      LastOf(w.chain + [state], p) == Some(w.m.pools[p]) && StateKey(w.m.pools[p]) != StateKey(state)
    ensures p == state.poolId ==> StateKey(w.m.pools[p]) == StateKey(state)
  {
    LastOfIsOnChain(w.chain, p);
    if p == state.poolId {
      SamePoolKey(w.chain, state, w.m.pools[p]);
    } else {
      OtherPool(w.chain, state, w.m.pools[p]);
    }
  }

  lemma DeliveryPools(w: World, state: PoolState, w': World)
    requires ChainOk(w.chain + [state]) && PoolsMirrored(w)
    requires w'.chain == w.chain + [state] && w'.m.pools == w.m.pools[state.poolId := state]
    requires w'.m.disk.pools == w.m.disk.pools[StateKey(state) := state]
    ensures PoolsMirrored(w')
  {
    assert w'.chain[|w.chain|] == state;
    forall p | p in w.m.pools
      ensures w.m.pools[p].poolId == p
      ensures p != state.poolId ==> LastOf(w'.chain, p) == Some(w.m.pools[p]) && StateKey(w.m.pools[p]) != StateKey(state)
      ensures p == state.poolId ==> StateKey(w.m.pools[p]) == StateKey(state)
    {
      DeliveredKeys(w, state, p);
    }
  }

  lemma DeliveryTips(w: World, e: Event, w': World)
    requires TipsOk(w) && ChainBelow(w) && e.Delivery? && e.state.slot >= w.floor
    requires w'.chain == w.chain + [e.state] && w'.high == Max(w.high, e.state.slot) && w'.floor == e.state.slot
    requires w'.bound == NO_BOUND && w'.m.tracker.latest == e.state.slot && w'.m.tracker.window == w.m.tracker.window
    requires w'.m.disk.meta.Some? && w'.m.disk.meta.value.window == w.m.tracker.window
    requires w'.m.disk.meta.value.latest == Max(e.state.slot, if w.m.disk.meta.Some? then w.m.disk.meta.value.latest else 0)
    ensures TipsOk(w') && ChainBelow(w')
  {
  }

  lemma DeliveryOk(w: World, e: Event, w': World)
    requires WorldOk(w) && e.Delivery? && Step(w, e, w')
    ensures WorldOk(w')
  {
    DeliveryInMemory(w, e, w');
    DeliveryOnDisk(w, e, w');
    DeliveryTips(w, e, w');
    DeliveryHistory(w, e, w');
    DeliveryPools(w, e.state, w');
  }

  // ----- rollbacks -----

  /** Swaps of the kept chain are the swaps of the chain up to the rollback point. */
  lemma RollbackHistory(w: World, slot: uint64, swap: SwapTransition)
    requires WorldOk(w) && swap in w.history && swap.slot < FirstRolledBackSlot(slot)
    ensures IsChainSwap(UpTo(w.chain, slot), swap)
  {
    var n := UpToIsPrefix(w.chain, slot);
    var j := ChainSwapNamed(w.chain, swap);
    MovesBefore(w.chain, n, j);
    assert w.chain[..n][j] == w.chain[j];
  }

  lemma RollbackPools(w: World, slot: uint64)
    requires ChainOk(w.chain) && PoolsMirrored(w)
    ensures var w' := World(RolledBackMachine(w.m, slot), UpTo(w.chain, slot), {}, w.high, slot + 1, NO_BOUND);
            PoolsMirrored(w')
  {
    var m' := RolledBackMachine(w.m, slot);
    var n := UpToIsPrefix(w.chain, slot);
    forall p | p in m'.pools ensures LastOf(w.chain[..n], p) == Some(m'.pools[p]) {
      LastOfIsOnChain(w.chain, p);
      var i :| 0 <= i < |w.chain| && w.chain[i] == w.m.pools[p];
      assert w.chain[..n][i] == w.chain[i];
      LastOfPrefix(w.chain, n, p);
    }
    var gone := InvalidatedKeys(w.m.pools, FirstRolledBackSlot(slot));
    forall p, q | p in m'.pools && q in w.m.pools && w.m.pools[q].slot >= FirstRolledBackSlot(slot)
      ensures StateKey(w.m.pools[q]) != StateKey(m'.pools[p])
    {
      assert w.m.disk.pools[StateKey(w.m.pools[q])].slot >= FirstRolledBackSlot(slot);
      assert w.m.disk.pools[StateKey(w.m.pools[p])].slot < FirstRolledBackSlot(slot);
    }
    forall k | k in m'.disk.pools ensures m'.disk.pools[k].poolId in m'.pools {
      assert k !in gone;
    }
  }

  lemma RollbackInMemory(w: World, e: Event, w': World)
    requires WorldOk(w) && e.RollbackTo? && Step(w, e, w')
    ensures TrackerOk(w'.m.tracker) && w'.m.tracker.window == w.m.tracker.window
    ensures Retains(w', InMemory(w'.m.tracker))
  {
    RollbackOk(w.m.tracker, FirstRolledBackSlot(e.slot));
    forall x | x in InMemory(w'.m.tracker) ensures x in w'.history {
      assert x in InMemory(w.m.tracker);
    }
    forall x | x in w'.history && x.slot >= Cutoff(w.high, w.m.tracker.window) ensures x in InMemory(w'.m.tracker) {
      assert x in InMemory(w.m.tracker);
    }
  }

  lemma StoredAfterRollback(d: Disk, slot: uint64, d': Disk)
    requires DiskOk(d) && d'.meta == RolledBackDisk(d, slot).meta && d'.swaps == RolledBackDisk(d, slot).swaps
    ensures DiskOk(d')
    ensures forall x :: Stored(d', x) <==> Stored(d, x) && x.slot < slot
  {
  }

  lemma RollbackOnDisk(w: World, e: Event, w': World)
    requires WorldOk(w) && e.RollbackTo? && Step(w, e, w')
    ensures DiskOk(w'.m.disk)
    ensures w'.m.tracker.window == w.m.tracker.window ==> Retains(w', OnDisk(w'.m.disk))
  {
    StoredAfterRollback(w.m.disk, FirstRolledBackSlot(e.slot), w'.m.disk);
    forall x | x in OnDisk(w'.m.disk) ensures x in w'.history {
      assert x in OnDisk(w.m.disk);
    }
    forall x | x in w'.history && x.slot >= Cutoff(w.high, w.m.tracker.window) ensures x in OnDisk(w'.m.disk) {
      assert x in OnDisk(w.m.disk);
    }
  }

  lemma RollbackChain(w: World, slot: uint64, w': World)
    requires ChainOk(w.chain) && ChainBelow(w) && TipsOk(w)
    requires w'.chain == UpTo(w.chain, slot) && w'.high == w.high && w'.floor == slot + 1 && w'.bound == NO_BOUND
    requires w'.m.tracker.latest == RollbackTip(w.m.tracker.latest, FirstRolledBackSlot(slot))
    requires w'.m.tracker.window == w.m.tracker.window
    requires w'.m.disk.meta == Rewound(w.m.disk.meta, FirstRolledBackSlot(slot))
    ensures ChainOk(w'.chain) && ChainBelow(w') && TipsOk(w')
  {
    var n := UpToIsPrefix(w.chain, slot);
    ChainPrefix(w.chain, n);
    forall i | 0 <= i < n ensures w'.chain[i].slot <= w.high && w'.chain[i].slot <= slot + 1 {
      assert w'.chain[i] == w.chain[i];
    }
  }

  lemma RollbackToOk(w: World, e: Event, w': World)
    requires WorldOk(w) && e.RollbackTo? && Step(w, e, w')
    ensures WorldOk(w')
  {
    RollbackInMemory(w, e, w');
    RollbackOnDisk(w, e, w');
    RollbackChain(w, e.slot, w');
    forall x | x in w'.history ensures IsChainSwap(w'.chain, x) {
      RollbackHistory(w, e.slot, x);
    }
    assert HistoryOnChain(w');
    RollbackPools(w, e.slot);
  }

  // ----- crashes -----

  /** From any valid disk a restart finds a tracker holding exactly the stored swaps inside its
      window. */
  lemma RestartedTracker(disk: Disk, window: uint64, m': Machine)
    requires DiskOk(disk) && window > 0 && (disk.meta.Some? ==> disk.meta.value.window == window)
    requires Restarted(disk, window, m')
    ensures TrackerOk(m'.tracker) && m'.tracker.window == window
    ensures m'.tracker.latest == if disk.meta.Some? then disk.meta.value.latest else 0
    ensures forall x :: x in InMemory(m'.tracker) <==> Stored(disk, x) && x.slot >= Cutoff(m'.tracker.latest, window)
  {
    var state :| LoadedFrom(disk, state)
      && if state.window == 0 then m'.tracker == Tracker(window, 0, map[])
         else Restored(Tracker(window, 0, map[]), state) == Ok(m'.tracker);
    if disk.meta.Some? {
      RestoredHolds(disk, window, state, m'.tracker);
    }
  }

  lemma RestoredHolds(disk: Disk, window: uint64, state: ActivityState, t: Tracker)
    requires DiskOk(disk) && disk.meta.Some? && disk.meta.value.window == window > 0
    requires LoadedFrom(disk, state) && Restored(Tracker(window, 0, map[]), state) == Ok(t)
    ensures TrackerOk(t) && t.window == window && t.latest == disk.meta.value.latest
    ensures forall x :: x in InMemory(t) <==> Stored(disk, x) && x.slot >= Cutoff(t.latest, window)
  {
    LoadedRestores(disk, state, Tracker(window, 0, map[]));
  }

  lemma RestartPools(chain: seq<PoolState>, before: map<string, PoolState>, stored: map<string, PoolState>,
                     pools: map<string, PoolState>)
    requires PoolsLoaded(stored, pools)
    requires forall k :: k in stored ==>
      k == StateKey(stored[k]) && stored[k].poolId in before && before[stored[k].poolId] == stored[k]
    ensures forall p :: p in pools ==>
      p in before && before[p] == pools[p] && StateKey(pools[p]) in stored && stored[StateKey(pools[p])] == pools[p]
    ensures forall k :: k in stored ==> stored[k].poolId in pools && pools[stored[k].poolId] == stored[k]
  {
    forall p | p in pools
      ensures p in before && before[p] == pools[p] && StateKey(pools[p]) in stored && stored[StateKey(pools[p])] == pools[p]
    {
      var k :| k in stored && stored[k] == pools[p] && pools[p].poolId == p;
    }
  }

  lemma RestartRetains(w: World, disk: Disk, w': World, bound: int)
    requires Retains(w, OnDisk(w.m.disk)) && bound <= w.bound
    requires forall x :: Stored(disk, x) ==> Stored(w.m.disk, x)
    requires forall x :: Stored(w.m.disk, x) && x.slot < bound ==> Stored(disk, x)
    requires w' == w.(m := w'.m, bound := bound) && w'.m.tracker.window == w.m.tracker.window
    requires w'.m.tracker.latest <= w.high
    requires forall x :: x in InMemory(w'.m.tracker) <==>
                         Stored(disk, x) && x.slot >= Cutoff(w'.m.tracker.latest, w.m.tracker.window)
    ensures Retains(w', OnDisk(disk)) && Retains(w', InMemory(w'.m.tracker))
  {
    var from := Cutoff(w.high, w.m.tracker.window);
    assert Cutoff(w'.m.tracker.latest, w.m.tracker.window) <= from;
    forall x
      ensures Stored(disk, x) ==> x in w'.history
      ensures x in w'.history && x.slot >= from && x.slot < bound ==> Stored(disk, x)
    {
      assert x in OnDisk(w.m.disk) <==> Stored(w.m.disk, x);
    }
  }

  /** One disk is part of another, and has all of its swaps below a slot. */
  ghost predicate PartOf(disk: Disk, d: Disk, slot: int) {
    && DiskOk(disk) && (disk.meta.Some? ==> d.meta.Some?)
    && (disk.meta.Some? ==> disk.meta.value.window == d.meta.value.window && disk.meta.value.latest <= d.meta.value.latest)
    && (forall x :: Stored(disk, x) ==> Stored(d, x))
    && (forall x :: Stored(d, x) && x.slot < slot ==> Stored(disk, x))
    && (forall k :: k in disk.pools ==> k in d.pools && disk.pools[k] == d.pools[k])
  }

  /** A restart from a disk that is part of the tracked one keeps the invariant up to a bound. */
  lemma RestartOk(w: World, disk: Disk, w': World, bound: int)
    requires WorldOk(w) && bound <= w.bound && PartOf(disk, w.m.disk, bound)
    requires Restarted(disk, w.m.tracker.window, w'.m) && w' == w.(m := w'.m, bound := bound)
    ensures WorldOk(w') && w'.m.tracker.window == w.m.tracker.window
  {
    RestartedTracker(disk, w.m.tracker.window, w'.m);
    assert TipsOk(w') && ChainBelow(w') && HistoryOnChain(w');
    RestartRetains(w, disk, w', bound);
    RestartMirrors(w, disk, w');
  }

  lemma RestartMirrors(w: World, disk: Disk, w': World)
    requires PoolsMirrored(w) && w'.chain == w.chain && w'.m.disk == disk && PoolsLoaded(disk.pools, w'.m.pools)
    requires forall k :: k in disk.pools ==> k in w.m.disk.pools && disk.pools[k] == w.m.disk.pools[k]
    ensures PoolsMirrored(w')
  {
    RestartPools(w.chain, w.m.pools, disk.pools, w'.m.pools);
  }

  /** Batches never add swaps, never touch those below the rollback point, and only lower the tip. */
  lemma {:induction false} BatchesShrink(disks: seq<Disk>, slot: uint64)
    requires Interrupted(disks, slot) && WellKeyed(disks[0].swaps)
    ensures var first, last := disks[0], disks[|disks| - 1];
            && WellKeyed(last.swaps)
            && (forall x :: Stored(last, x) ==> Stored(first, x))
            && (forall x :: Stored(first, x) && x.slot < slot ==> Stored(last, x))
            && last.pools == first.pools
            && (last.meta.Some? <==> first.meta.Some?)
            && (last.meta.Some? ==> last.meta.value.window == first.meta.value.window
                                    && last.meta.value.latest <= first.meta.value.latest)
  {
    if |disks| > 1 {
      var n := |disks| - 2;
      var prefix := disks[..n + 1];
      forall i | 0 <= i < |prefix| - 1 ensures Resumable(prefix[i], slot, prefix[i + 1]) {
        assert Resumable(disks[i], slot, disks[i + 1]);
      }
      BatchesShrink(prefix, slot);
      assert Resumable(disks[n], slot, disks[n + 1]);
      var maxCount: int, maxSize: int, done :| Batch(disks[n], slot, maxCount, maxSize, disks[n + 1], done);
    }
  }

  lemma LeftBehindPart(m: Machine, slot: uint64, disks: seq<Disk>, deleted: set<string>)
    requires LeftBehind(m, slot, disks, deleted) && DiskOk(m.disk)
    ensures PartOf(Remaining(disks, deleted), m.disk, FirstRolledBackSlot(slot))
  {
    var first, last := FirstRolledBackSlot(slot), disks[|disks| - 1];
    BatchesShrink(disks, first);
    InterruptedRollbackResumes(disks, first);
    assert forall x :: Stored(Remaining(disks, deleted), x) <==> Stored(last, x);
  }

  lemma CrashOk(w: World, e: Event, w': World)
    requires WorldOk(w) && e.Crash? && Step(w, e, w')
    ensures WorldOk(w') && w'.m.tracker.window == w.m.tracker.window
  {
    RestartOk(w, w.m.disk, w', w.bound);
  }

  lemma InterruptedOk(w: World, e: Event, w': World)
    requires WorldOk(w) && e.CrashInRollback? && Step(w, e, w')
    ensures WorldOk(w') && w'.m.tracker.window == w.m.tracker.window
  {
    LeftBehindPart(w.m, e.slot, e.disks, e.deleted);
    RestartOk(w, Remaining(e.disks, e.deleted), w', FirstRolledBackSlot(e.slot));
  }

  // ----- runs -----

  lemma StepOk(w: World, e: Event, w': World)
    requires WorldOk(w) && Step(w, e, w')
    ensures WorldOk(w') && w'.m.tracker.window == w.m.tracker.window
  {
    match e {
      case Delivery(state, maxCount, maxSize) =>
        DeliveryOk(w, e, w');
        DeliveryInMemory(w, e, w');
      case RollbackTo(slot) => RollbackToOk(w, e, w');
      case Crash => CrashOk(w, e, w');
      case CrashInRollback(_, _, _) => InterruptedOk(w, e, w');
    }
  }

  ghost predicate IsRun(worlds: seq<World>, events: seq<Event>, window: uint64) {
    && |worlds| == |events| + 1
    && Initial(worlds[0], window)
    && forall i :: 0 <= i < |events| ==> Step(worlds[i], events[i], worlds[i + 1])
  }

  /** The invariant holds in every world of every run. */
  lemma {:induction false} RunsOk(worlds: seq<World>, events: seq<Event>, window: uint64)
    requires IsRun(worlds, events, window)
    ensures var w := worlds[|events|]; WorldOk(w) && w.m.tracker.window == window
  {
    var n := |events|;
    if n == 0 {
      InitialOk(worlds[0], window);
    } else {
      RunsOk(worlds[..n], events[..n - 1], window);
      StepOk(worlds[n - 1], events[n - 1], worlds[n]);
    }
  }

  lemma InitialOk(w: World, window: uint64)
    requires Initial(w, window)
    ensures WorldOk(w)
  {
  }
}
