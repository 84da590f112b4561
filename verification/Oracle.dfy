/** The oracle object: tracked pools over an activity tracker and a store, updated step by step
    (internal/oracle/oracle.go). Each handler is a step of the machine in OracleRuns. */
module Oracle {
  import opened Words
  import opened Activity
  import opened ActivitySpec
  import opened ActivityStorage
  import opened ActivityStore
  import opened Dex
  import opened OracleLosses
  import opened OracleRuns

  datatype OracleError = ActivityFailed(cause: ActivityError) | PersistFailed(reason: StorageError)

  class PoolOracle {
    var pools: map<string, PoolState>
    const activity: ActivityTracker
    const storage: OracleStorage

    function State(): Machine
      reads this, activity, storage
    {
      Machine(pools, activity.State(), storage.Contents())
    }

    constructor (activity: ActivityTracker, storage: OracleStorage)
      ensures this.activity == activity && this.storage == storage && pools == map[]
    {
      pools := map[];
      this.activity, this.storage := activity, storage;
    }

    /** The pool part of handleTransaction for one parsed output. Memory moves first; a refused
        state changes nothing, and a failed write leaves the disk as it was. */
    method HandleTransaction(state: PoolState) returns (r: Result<(), OracleError>)
      modifies this, activity, storage
      ensures r.Ok? && WellKeyed(old(storage.swaps)) ==>
                Handled(old(State()), state, storage.maxBatchCount / 2, storage.maxBatchSize / 2, State())
      ensures r.Err? && r.error.ActivityFailed? ==>
                && State() == old(State())
                && ObserveTransition(old(activity.State()), Tracked(old(pools), state.poolId), Some(state)).result
                   == Err(r.error.cause)
      ensures r.Err? && r.error.PersistFailed? ==>
                WriteFailed(old(State()), state, State())
    {
      var prevState: Option<PoolState> := None;
      if state.poolId in pools {
        prevState := Some(pools[state.poolId]);
      }
      var transition := activity.ObserveTransition(prevState, Some(state));
      if transition.Err? {
        return Err(ActivityFailed(transition.error));
      }
      pools := pools[state.poolId := state];
      var persisted := storage.SavePoolStateAndActivity(Some(state), transition.value, activity.windowSlots);
      if persisted.Err? {
        return Err(PersistFailed(persisted.error));
      }
      return Ok(());
    }

    /** handleRollback: the durable rollback runs first, memory follows only when it succeeded, and
        the invalidated pool states are deleted last. */
    method HandleRollback(slot: uint64) returns (r: Result<(), OracleError>)
      modifies this, activity, storage
      ensures WellKeyed(old(storage.swaps)) ==> r.Ok? && State() == RolledBackMachine(old(State()), slot)
      ensures r.Err? ==> activity.State() == old(activity.State())
    {
      var first := slot;
      if slot != MAX_UINT64 {
        first := slot + 1;
      }
      var toDelete := InvalidatePools(first);
      var rolledBack := storage.RollbackActivity(first);
      if rolledBack.Ok? {
        activity.Rollback(first);
      }
      DeletePersisted(toDelete);
      KeysToDelete(old(pools), first, toDelete);
      if rolledBack.Err? {
        return Err(PersistFailed(rolledBack.error));
      }
      return Ok(());
    }

    /** Drops the states at or after `first` from memory and lists them. */
    method InvalidatePools(first: uint64) returns (toDelete: seq<PoolState>)
      modifies this`pools
      ensures pools == SurvivingPools(old(pools), first)
      ensures forall x :: x in toDelete <==> exists p :: p in old(pools) && old(pools)[p].slot >= first && old(pools)[p] == x
    {
      toDelete := [];
      var keys := pools.Keys;
      while keys != {}
        invariant keys <= old(pools).Keys
        invariant pools == map p | p in old(pools) && (p in keys || old(pools)[p].slot < first) :: old(pools)[p]
        invariant forall x :: x in toDelete <==>
                    exists p :: p in old(pools) && p !in keys && old(pools)[p].slot >= first && old(pools)[p] == x
        decreases keys
      {
        var p :| p in keys;
        if pools[p].slot >= first {
          toDelete := toDelete + [pools[p]];
          pools := pools - {p};
        }
        keys := keys - {p};
      }
    }

    method DeletePersisted(toDelete: seq<PoolState>)
      modifies storage`pools
      ensures storage.pools == old(storage.pools) - KeysOf(toDelete)
    {
      var i := 0;
      while i < |toDelete|
        invariant i <= |toDelete|
        invariant storage.pools == old(storage.pools) - KeysOf(toDelete[..i])
      {
        assert toDelete[..i + 1] == toDelete[..i] + [toDelete[i]];
        assert KeysOf(toDelete[..i + 1]) == KeysOf(toDelete[..i]) + {StateKey(toDelete[i])};
        storage.DeletePoolState(toDelete[i]);
        i := i + 1;
      }
      assert toDelete[..i] == toDelete;
    }

    static function KeysOf(states: seq<PoolState>): set<string> { set x | x in states :: StateKey(x) }

    static lemma KeysToDelete(pools: map<string, PoolState>, first: uint64, toDelete: seq<PoolState>)
      requires forall x :: x in toDelete <==> exists p :: p in pools && pools[p].slot >= first && pools[p] == x
      ensures KeysOf(toDelete) == InvalidatedKeys(pools, first)
    {
      forall k | k in InvalidatedKeys(pools, first) ensures k in KeysOf(toDelete) {
        var p :| p in pools && pools[p].slot >= first && StateKey(pools[p]) == k;
        assert pools[p] in toDelete;
      }
    }

    /** loadPersistedStates on a new oracle. From a valid disk with the tracker's window it always
        succeeds. */
    method LoadPersistedStates() returns (r: Result<(), OracleError>)
      modifies this, activity
      ensures r.Ok? && old(pools) == map[] && old(activity.State()) == Tracker(old(activity.windowSlots), 0, map[]) ==>
                Restarted(storage.Contents(), old(activity.windowSlots), State())
      ensures DiskOk(storage.Contents()) && old(activity.windowSlots) > 0
              && (storage.meta.None? || storage.meta.value.window == old(activity.windowSlots))
              ==> r.Ok?
    {
      var loaded := storage.LoadActivityState();
      if loaded.Err? {
        return Err(PersistFailed(loaded.error));
      }
      if loaded.value.window != 0 {
        if DiskOk(storage.Contents()) && storage.meta.value.window == activity.windowSlots {
          LoadedRestores(storage.Contents(), loaded.value, activity.State());
        }
        var restored := activity.Restore(loaded.value);
        if restored.Err? {
          return Err(ActivityFailed(restored.error));
        }
      }
      LoadPools();
      assert LoadedFrom(storage.Contents(), loaded.value);
      assert storage.meta.None? ==> loaded.value.window == 0;
      assert storage.Contents().pools == storage.pools;
      return Ok(());
    }

    /** The stored states replace those of the same pools in memory. */
    method LoadPools()
      modifies this`pools
      ensures forall k :: k in storage.pools ==> storage.pools[k].poolId in pools
      ensures forall p :: p in pools ==>
        p in old(pools) || exists k :: k in storage.pools && storage.pools[k] == pools[p] && pools[p].poolId == p
    {
      var keys := storage.pools.Keys;
      while keys != {}
        invariant keys <= storage.pools.Keys
        invariant forall k :: k in storage.pools && k !in keys ==> storage.pools[k].poolId in pools
        invariant forall p :: p in pools ==>
                    p in old(pools) || exists k :: k in storage.pools && storage.pools[k] == pools[p] && pools[p].poolId == p
        decreases keys
      {
        var k :| k in keys;
        pools := pools[storage.pools[k].poolId := storage.pools[k]];
        keys := keys - {k};
      }
    }
  }
}
