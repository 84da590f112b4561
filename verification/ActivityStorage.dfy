/** The persistent store as the object the source has (internal/oracle/activity_storage.go). A
    transaction works on local copies and assigns the fields once, when it commits; an iterator
    step takes the least, or in reverse the greatest, key not yet visited. */
module ActivityStorage {
  import opened Words
  import opened Text
  import opened Dex
  import opened ActivitySpec
  import opened ActivityStore

  datatype StorageError =
    | ErrNilPoolState
    | ErrZeroWindow
    | ErrSwapMismatch
    | ErrWindowChanged
    | ErrInvalidKey
    | ErrSwapsWithoutMetadata
    | ErrZeroWindowMetadata

  /** A transaction fails on a key it cannot parse, and only then. */
  predicate HasInvalidKey(swaps: SwapTable) { exists k :: k in swaps && SlotFromKey(k).None? }

  lemma WellKeyedParses(swaps: SwapTable)
    requires WellKeyed(swaps)
    ensures forall k :: k in swaps ==> SlotFromKey(k) == Some(swaps[k].slot)
  {
    forall k | k in swaps {
      KeyHoldsSlot(swaps[k]);
    }
  }

  lemma NotDoneShrinks(swaps: SwapTable, keys: seq<string>, done: bool)
    requires !done ==> keys != [] && keys[0] in swaps
    ensures !done ==> |Without(swaps, keys)| < |swaps|
  {
    if !done {
      SmallerTable(Without(swaps, keys), swaps, keys[0]);
    }
  }

  lemma InvalidIsNotWellKeyed(swaps: SwapTable)
    ensures HasInvalidKey(swaps) ==> !WellKeyed(swaps)
  {
    if WellKeyed(swaps) {
      WellKeyedParses(swaps);
    }
  }

  function KeySet(keys: seq<string>): set<string> { set k | k in keys }

  lemma AppendFits(keys: seq<string>, key: string)
    ensures Size(keys + [key]) == Size(keys) + Entry(key)
    ensures KeySet(keys + [key]) == KeySet(keys) + {key}
  {
    assert (keys + [key])[..|keys|] == keys;
  }

  class OracleStorage {
    var meta: Option<Metadata>
    var swaps: SwapTable
    var pools: map<string, PoolState>
    const maxBatchCount: nat
    const maxBatchSize: nat

    function Contents(): Disk
      reads this
    {
      Disk(meta, swaps, pools)
    }

    constructor (maxBatchCount: nat, maxBatchSize: nat)
      ensures Contents() == Disk(None, map[], map[])
      ensures this.maxBatchCount == maxBatchCount && this.maxBatchSize == maxBatchSize
    {
      meta, swaps, pools := None, map[], map[];
      this.maxBatchCount, this.maxBatchSize := maxBatchCount, maxBatchSize;
    }

    /** The slot in a stored key. */
    static method ReadSlot(swaps: SwapTable, key: string) returns (slot: Option<uint64>)
      requires key in swaps
      ensures slot.None? ==> HasInvalidKey(swaps)
      ensures WellKeyed(swaps) ==> slot == Some(swaps[key].slot)
    {
      slot := SlotFromKey(key);
      if WellKeyed(swaps) {
        KeyHoldsSlot(swaps[key]);
      }
    }

    /** pruneActivityKeys: the keys to delete, oldest first. */
    static method PrunableKeys(swaps: SwapTable, cutoff: uint64, maxCount: int, maxSize: int)
      returns (r: Result<seq<string>, StorageError>)
      ensures r.Err? ==> HasInvalidKey(swaps)
      ensures r.Ok? && WellKeyed(swaps) ==> PruneSelection(swaps, cutoff, maxCount, maxSize, r.value)
    {
      if cutoff == 0 {
        NothingBelowZero(swaps, maxCount, maxSize);
        return Ok([]);
      }
      var keys: seq<string> := [];
      var count, size := 0, 0;
      var rest := swaps.Keys;
      while rest != {}
        invariant Scanned(swaps.Keys, rest, keys)
        invariant count == |keys| && size == Size(keys)
        invariant WellKeyed(swaps) ==> Prunable(swaps, cutoff, maxCount, maxSize, keys)
        decreases rest
      {
        var key := Oldest(rest);
        var slot := ReadSlot(swaps, key);
        if slot.None? {
          return Err(ErrInvalidKey);
        }
        AppendFits(keys, key);
        var entry := Entry(key);
        if slot.value >= cutoff || count + 1 > maxCount || size + entry > maxSize {
          if WellKeyed(swaps) {
            PruneStops(swaps, rest, cutoff, maxCount, maxSize, keys, key);
          }
          return Ok(keys);
        }
        if WellKeyed(swaps) {
          PrunesOn(swaps, cutoff, maxCount, maxSize, keys, key);
        }
        NextKey(swaps.Keys, rest, keys, key);
        count, size := count + 1, size + entry;
        keys, rest := keys + [key], rest - {key};
      }
      if WellKeyed(swaps) {
        PruneExhausts(swaps, rest, cutoff, maxCount, maxSize, keys);
      }
      return Ok(keys);
    }

    static method Oldest(rest: set<string>) returns (key: string)
      requires rest != {}
      ensures IsLeast(rest, key)
    {
      LeastExists(rest);
      key :| IsLeast(rest, key);
    }

    static lemma NothingBelowZero(swaps: SwapTable, maxCount: int, maxSize: int)
      ensures PruneSelection(swaps, 0, maxCount, maxSize, [])
    {
    }

    /** Within the budget and below the cutoff. */
    static ghost predicate Prunable(swaps: SwapTable, cutoff: uint64, maxCount: int, maxSize: int, keys: seq<string>) {
      (keys != [] ==> Fits(keys, maxCount, maxSize)) && AllBelow(swaps, cutoff, keys)
    }

    static lemma PrunesOn(swaps: SwapTable, cutoff: uint64, maxCount: int, maxSize: int, keys: seq<string>, key: string)
      requires Prunable(swaps, cutoff, maxCount, maxSize, keys) && key in swaps && swaps[key].slot < cutoff
      requires Fits(keys + [key], maxCount, maxSize)
      ensures Prunable(swaps, cutoff, maxCount, maxSize, keys + [key])
    {
    }

    static ghost predicate AllBelow(swaps: SwapTable, cutoff: uint64, keys: seq<string>) {
      forall k :: k in keys ==> k in swaps && swaps[k].slot < cutoff
    }

    /** The scan has visited `keys`, each once and all below what is left. */
    static ghost predicate Scanned(all: set<string>, rest: set<string>, keys: seq<string>) {
      && rest == all - KeySet(keys) && KeySet(keys) <= all && NoRepeats(keys) && Ascending(keys)
      && forall k, d :: k in rest && d in keys ==> LexLess(d, k)
    }

    /** The scan from the other end: all above what is left. */
    static ghost predicate ScannedDown(all: set<string>, rest: set<string>, keys: seq<string>) {
      && rest == all - KeySet(keys) && KeySet(keys) <= all && NoRepeats(keys) && Descending(keys)
      && forall k, d :: k in rest && d in keys ==> LexLess(k, d)
    }

    static lemma NextKey(all: set<string>, rest: set<string>, keys: seq<string>, key: string)
      requires Scanned(all, rest, keys) && IsLeast(rest, key)
      ensures Scanned(all, rest - {key}, keys + [key])
      ensures forall k :: k in keys + [key] <==> k in keys || k == key
    {
      TakeKey(all, rest, keys, key);
      forall i, j | 0 <= i < j < |keys| + 1 ensures Ordered(keys + [key], i, j) {
        assert j < |keys| ==> Ordered(keys, i, j);
        assert keys[i] in keys;
      }
    }

    static lemma PreviousKey(all: set<string>, rest: set<string>, keys: seq<string>, key: string)
      requires ScannedDown(all, rest, keys) && IsGreatest(rest, key)
      ensures ScannedDown(all, rest - {key}, keys + [key])
    {
      TakeKey(all, rest, keys, key);
      forall i, j | 0 <= i < j < |keys| + 1 ensures Ordered(keys + [key], j, i) {
        assert j < |keys| ==> Ordered(keys, j, i);
        assert keys[i] in keys;
      }
    }

    static lemma TakeKey(all: set<string>, rest: set<string>, keys: seq<string>, key: string)
      requires NoRepeats(keys) && key in rest && rest == all - KeySet(keys) && KeySet(keys) <= all
      ensures NoRepeats(keys + [key])
      ensures rest - {key} == all - KeySet(keys + [key]) && KeySet(keys + [key]) <= all
    {
      assert forall i :: 0 <= i < |keys| ==> keys[i] in KeySet(keys);
      AppendFits(keys, key);
    }

    static lemma PruneStops(swaps: SwapTable, rest: set<string>, cutoff: uint64, maxCount: int, maxSize: int,
                            keys: seq<string>, key: string)
      requires Scanned(swaps.Keys, rest, keys) && Prunable(swaps, cutoff, maxCount, maxSize, keys)
      requires IsLeast(rest, key) && (swaps[key].slot >= cutoff || !Fits(keys + [key], maxCount, maxSize))
      ensures PruneSelection(swaps, cutoff, maxCount, maxSize, keys)
    {
      assert swaps.Keys - (set d | d in keys) == rest;
      LeastUnique(rest, key);
    }

    static lemma PruneExhausts(swaps: SwapTable, rest: set<string>, cutoff: uint64, maxCount: int, maxSize: int,
                               keys: seq<string>)
      requires Scanned(swaps.Keys, rest, keys) && Prunable(swaps, cutoff, maxCount, maxSize, keys) && rest == {}
      ensures PruneSelection(swaps, cutoff, maxCount, maxSize, keys)
    {
      forall k | k in swaps ensures k in keys {
        assert k !in rest && k in KeySet(keys);
      }
    }

    static lemma LeastUnique(keys: set<string>, key: string)
      requires IsLeast(keys, key)
      ensures forall k :: IsLeast(keys, k) ==> k == key
    {
      forall k | IsLeast(keys, k) ensures k == key {
        if k != key {
          LexAsymmetric(k, key);
        }
      }
    }

    /** rolledBackActivityKeys: the keys to delete, newest first, the lowest slot among them, and
        whether nothing at or after the slot remains. */
    static method RolledBackKeys(swaps: SwapTable, slot: uint64, maxCount: int, maxSize: int)
      returns (r: Result<(seq<string>, uint64, bool), StorageError>)
      ensures r.Err? ==> HasInvalidKey(swaps)
      ensures r.Ok? && WellKeyed(swaps) ==>
                RollbackSelection(swaps, slot, maxCount, maxSize, r.value.0, r.value.1, r.value.2)
      ensures r.Ok? && !r.value.2 ==> r.value.0 != [] && r.value.0[0] in swaps
    {
      var keys: seq<string> := [];
      var count, size := 0, 0;
      var lowest: uint64 := slot;
      var rest := swaps.Keys;
      while rest != {}
        invariant ScannedDown(swaps.Keys, rest, keys)
        invariant count == |keys| && size == Size(keys)
        invariant WellKeyed(swaps) ==> Removable(swaps, rest, slot, maxCount, maxSize, keys, lowest)
        decreases rest
      {
        var key := Newest(rest);
        var keySlot := ReadSlot(swaps, key);
        if keySlot.None? {
          return Err(ErrInvalidKey);
        }
        if keySlot.value < slot {
          if WellKeyed(swaps) {
            NothingAbove(swaps, rest, key);
            RollbackExhausted(swaps, rest, slot, maxCount, maxSize, keys, lowest);
          }
          return Ok((keys, lowest, true));
        }
        AppendFits(keys, key);
        var entry := Entry(key);
        if |keys| > 0 && keySlot.value != lowest && (count + 1 > maxCount || size + entry > maxSize) {
          if WellKeyed(swaps) {
            RollbackStops(swaps, rest, slot, maxCount, maxSize, keys, lowest, key);
          }
          return Ok((keys, lowest, false));
        }
        if WellKeyed(swaps) {
          RemovesOn(swaps, rest, slot, maxCount, maxSize, keys, lowest, key);
        }
        PreviousKey(swaps.Keys, rest, keys, key);
        count, size := count + 1, size + entry;
        keys, rest := keys + [key], rest - {key};
        lowest := keySlot.value;
      }
      if WellKeyed(swaps) {
        RollbackExhausted(swaps, rest, slot, maxCount, maxSize, keys, lowest);
      }
      return Ok((keys, lowest, true));
    }

    static method Newest(rest: set<string>) returns (key: string)
      requires rest != {}
      ensures IsGreatest(rest, key)
    {
      GreatestExists(rest);
      key :| IsGreatest(rest, key);
    }

    static ghost predicate Removable(swaps: SwapTable, rest: set<string>, slot: uint64, maxCount: int, maxSize: int,
                                     keys: seq<string>, lowest: uint64)
      requires rest <= swaps.Keys && KeySet(keys) <= swaps.Keys
    {
      assert forall k :: k in keys ==> k in KeySet(keys);
      Collected(swaps, rest, slot, keys, lowest) && OnBudget(swaps, maxCount, maxSize, keys)
    }

    static lemma RemovesOn(swaps: SwapTable, rest: set<string>, slot: uint64, maxCount: int, maxSize: int,
                           keys: seq<string>, lowest: uint64, key: string)
      requires WellKeyed(swaps) && ScannedDown(swaps.Keys, rest, keys) && IsGreatest(rest, key)
      requires Removable(swaps, rest, slot, maxCount, maxSize, keys, lowest) && swaps[key].slot >= slot
      requires keys != [] && swaps[key].slot != lowest ==> Fits(keys + [key], maxCount, maxSize)
      ensures KeySet(keys + [key]) <= swaps.Keys
      ensures Removable(swaps, rest - {key}, slot, maxCount, maxSize, keys + [key], swaps[key].slot)
    {
      NothingAbove(swaps, rest, key);
      BudgetKept(swaps, maxCount, maxSize, keys, key);
      CollectedNext(swaps, rest, slot, keys, lowest, key);
    }

    static lemma CollectedNext(swaps: SwapTable, rest: set<string>, slot: uint64, keys: seq<string>, lowest: uint64, key: string)
      requires rest <= swaps.Keys && KeySet(keys) <= swaps.Keys && key in rest
      requires Collected(swaps, rest, slot, keys, lowest) && swaps[key].slot >= slot
      requires forall k :: k in rest ==> swaps[k].slot <= swaps[key].slot
      ensures KeySet(keys + [key]) <= swaps.Keys
      ensures Collected(swaps, rest - {key}, slot, keys + [key], swaps[key].slot)
    {
    }

    static lemma RollbackExhausted(swaps: SwapTable, rest: set<string>, slot: uint64, maxCount: int, maxSize: int,
                                   keys: seq<string>, lowest: uint64)
      requires ScannedDown(swaps.Keys, rest, keys) && Removable(swaps, rest, slot, maxCount, maxSize, keys, lowest)
      requires forall k :: k in rest ==> swaps[k].slot < slot
      ensures RollbackSelection(swaps, slot, maxCount, maxSize, keys, lowest, true)
    {
      forall k | k in swaps ensures k in keys <==> swaps[k].slot >= slot {
        assert k in rest <==> k !in KeySet(keys);
      }
    }

    static lemma RollbackStops(swaps: SwapTable, rest: set<string>, slot: uint64, maxCount: int, maxSize: int,
                               keys: seq<string>, lowest: uint64, key: string)
      requires WellKeyed(swaps) && ScannedDown(swaps.Keys, rest, keys) && keys != []
      requires Removable(swaps, rest, slot, maxCount, maxSize, keys, lowest)
      requires IsGreatest(rest, key) && !Fits(keys + [key], maxCount, maxSize)
      requires slot <= swaps[key].slot && swaps[key].slot != lowest
      ensures RollbackSelection(swaps, slot, maxCount, maxSize, keys, lowest, false)
    {
      NothingAbove(swaps, rest, key);
      assert swaps.Keys - (set d | d in keys) == rest;
      forall k | k in swaps ensures k in keys <==> swaps[k].slot >= lowest {
        assert k in rest <==> k !in KeySet(keys);
      }
    }

    /** The scan has passed the keys of the collected slots; the rest lies at or below the lowest. */
    static ghost predicate Collected(swaps: SwapTable, rest: set<string>, slot: uint64, keys: seq<string>, lowest: uint64)
      requires rest <= swaps.Keys && KeySet(keys) <= swaps.Keys
    {
      && slot <= lowest
      && (keys == [] ==> lowest == slot)
      && (keys != [] ==> swaps[keys[|keys| - 1]].slot == lowest && forall k :: k in rest ==> swaps[k].slot <= lowest)
      && (forall k :: k in keys ==> swaps[k].slot >= lowest)
    }

    static lemma BudgetKept(swaps: SwapTable, maxCount: int, maxSize: int, keys: seq<string>, key: string)
      requires (forall k :: k in keys ==> k in swaps) && key in swaps
      requires OnBudget(swaps, maxCount, maxSize, keys)
      requires keys != [] && swaps[key].slot != swaps[keys[|keys| - 1]].slot ==> Fits(keys + [key], maxCount, maxSize)
      ensures OnBudget(swaps, maxCount, maxSize, keys + [key])
    {
      var all := keys + [key];
      forall i | 0 < i < |all| && swaps[all[i]].slot != swaps[all[i - 1]].slot
        ensures Fits(all[..i + 1], maxCount, maxSize)
      {
        if i == |keys| {
          assert all[..i + 1] == all;
        } else {
          assert all[..i + 1] == keys[..i + 1];
        }
      }
    }

    static lemma NothingAbove(swaps: SwapTable, rest: set<string>, key: string)
      requires WellKeyed(swaps) && rest <= swaps.Keys && IsGreatest(rest, key)
      ensures forall k :: k in rest ==> swaps[k].slot <= swaps[key].slot
    {
      forall k | k in rest ensures swaps[k].slot <= swaps[key].slot {
        if k != key {
          SlotsFollowKeys(swaps, k, key);
        }
      }
    }

    static method Deleted(swaps: SwapTable, keys: seq<string>) returns (left: SwapTable)
      ensures left == Without(swaps, keys)
    {
      left := swaps;
      for i := 0 to |keys|
        invariant left == Without(swaps, keys[..i])
      {
        assert keys[..i + 1] == keys[..i] + [keys[i]];
        left := left - {keys[i]};
      }
      assert keys[..|keys|] == keys;
    }

    method SavePoolStateAndActivity(state: Option<PoolState>, swap: Option<SwapTransition>, windowSlots: uint64)
      returns (r: Result<(), StorageError>)
      modifies this`meta, this`swaps, this`pools
      ensures r.Err? ==> Contents() == old(Contents())
      ensures r == Err(ErrNilPoolState) <==> state.None?
      ensures r == Err(ErrZeroWindow) <==> state.Some? && windowSlots == 0
      ensures r == Err(ErrSwapMismatch) <==>
                && state.Some? && windowSlots > 0 && swap.Some?
                && !(swap.value.network == state.value.network && swap.value.protocol == state.value.protocol
                     && swap.value.poolId == state.value.poolId && swap.value.slot == state.value.slot)
      ensures r == Err(ErrWindowChanged) ==> old(meta).Some? && old(meta).value.window != windowSlots
      ensures r.Ok? ==> state.Some? && (old(meta).Some? ==> old(meta).value.window == windowSlots)
      ensures r.Ok? && WellKeyed(old(swaps)) ==>
                Saved(old(Contents()), state.value, swap, windowSlots, maxBatchCount / 2, maxBatchSize / 2, Contents())
      ensures r.Err? ==> r.error in {ErrNilPoolState, ErrZeroWindow, ErrSwapMismatch, ErrWindowChanged}
                         || !WellKeyed(old(swaps))
    {
      if state.None? {
        return Err(ErrNilPoolState);
      }
      if windowSlots == 0 {
        return Err(ErrZeroWindow);
      }
      var s := state.value;
      if swap.Some? && !(swap.value.network == s.network && swap.value.protocol == s.protocol
                         && swap.value.poolId == s.poolId && swap.value.slot == s.slot) {
        return Err(ErrSwapMismatch);
      }
      var newMeta := Metadata(windowSlots, s.slot);
      if meta.Some? {
        newMeta := meta.value;
        if newMeta.window != windowSlots {
          return Err(ErrWindowChanged);
        }
        if s.slot > newMeta.latest {
          newMeta := newMeta.(latest := s.slot);
        }
      }
      var newSwaps := swaps;
      if swap.Some? {
        newSwaps := newSwaps[ActivityKey(swap.value) := swap.value];
      }
      var cutoff := 0;
      if newMeta.latest > windowSlots {
        cutoff := newMeta.latest - windowSlots;
      }
      if WellKeyed(swaps) {
        WellKeyedParses(newSwaps);
      }
      var keys := PrunableKeys(newSwaps, cutoff, maxBatchCount / 2, maxBatchSize / 2);
      if keys.Err? {
        return Err(ErrInvalidKey);
      }
      newSwaps := Deleted(newSwaps, keys.value);
      meta, swaps, pools := Some(newMeta), newSwaps, pools[StateKey(s) := s];
      return Ok(());
    }

    method LoadActivityState() returns (r: Result<ActivityState, StorageError>)
      ensures r.Ok? ==> LoadedFrom(Contents(), r.value)
      ensures r == Err(ErrSwapsWithoutMetadata) <==> meta.None? && swaps != map[]
      ensures r == Err(ErrZeroWindowMetadata) <==> meta.Some? && meta.value.window == 0
      ensures r.Err? && WellKeyed(swaps) ==> r.error in {ErrSwapsWithoutMetadata, ErrZeroWindowMetadata}
    {
      if meta.None? {
        if swaps != map[] {
          return Err(ErrSwapsWithoutMetadata);
        }
        return Ok(ActivityState(0, 0, []));
      }
      if meta.value.window == 0 {
        return Err(ErrZeroWindowMetadata);
      }
      var loaded: seq<SwapTransition> := [];
      ghost var keys: seq<string> := [];
      var rest := swaps.Keys;
      while rest != {}
        invariant Scanned(swaps.Keys, rest, keys) && |keys| == |loaded|
        invariant forall i :: 0 <= i < |keys| ==> keys[i] in swaps && loaded[i] == swaps[keys[i]]
        decreases rest
      {
        var key := Oldest(rest);
        var slot := ReadSlot(swaps, key);
        if slot.None? {
          return Err(ErrInvalidKey);
        }
        NextKey(swaps.Keys, rest, keys, key);
        loaded := loaded + [swaps[key]];
        keys := keys + [key];
        rest := rest - {key};
      }
      forall k ensures k in keys <==> k in swaps {
        if k in swaps {
          assert k !in rest && k in KeySet(keys);
        }
        if k in keys {
          assert k in KeySet(keys);
        }
      }
      return Ok(ActivityState(meta.value.window, meta.value.latest, loaded));
    }

    method RollbackActivityBatch(slot: uint64, maxCount: int, maxSize: int) returns (r: Result<bool, StorageError>)
      modifies this`meta, this`swaps
      ensures r.Err? ==> Contents() == old(Contents()) && !WellKeyed(old(swaps))
      ensures r.Ok? && WellKeyed(old(swaps)) ==> Batch(old(Contents()), slot, maxCount, maxSize, Contents(), r.value)
      ensures r == Ok(false) ==> |swaps| < |old(swaps)|
    {
      InvalidIsNotWellKeyed(swaps);
      var selected := RolledBackKeys(swaps, slot, maxCount, maxSize);
      if selected.Err? {
        return Err(selected.error);
      }
      var (keys, lowest, done) := selected.value;
      var newMeta, left := WithoutSelected(meta, swaps, keys, if done then slot else lowest);
      SelectionIsBatch(Contents(), slot, maxCount, maxSize, keys, lowest, done);
      NotDoneShrinks(swaps, keys, done);
      meta, swaps := newMeta, left;
      r := Ok(done);
    }

    /** Deletes the selected keys and rewinds the metadata below what is now invalid. */
    static method WithoutSelected(meta: Option<Metadata>, swaps: SwapTable, keys: seq<string>, firstInvalid: uint64)
      returns (newMeta: Option<Metadata>, left: SwapTable)
      ensures newMeta == Rewound(meta, firstInvalid) && left == Without(swaps, keys)
    {
      newMeta := RewindActivityMeta(meta, firstInvalid);
      left := Deleted(swaps, keys);
    }

    /** The tip ends below the first invalid slot, or at 0 when that is the first slot of all; it is
        never advanced, and one that was already there stays as it is. */
    static method RewindActivityMeta(meta: Option<Metadata>, firstInvalid: uint64) returns (r: Option<Metadata>)
      ensures r == Rewound(meta, firstInvalid)
      ensures r.Some? <==> meta.Some?
      ensures r.Some? ==>
        && r.value.window == meta.value.window
        && r.value.latest <= meta.value.latest
        && (r.value.latest < firstInvalid || r.value.latest == 0)
        && (meta.value.latest < firstInvalid ==> r == meta)
        && (meta.value.latest >= firstInvalid > 0 ==> r.value.latest + 1 == firstInvalid)
    {
      if meta.None? {
        return meta;
      }
      var latest := 0;
      if firstInvalid > 0 {
        latest := firstInvalid - 1;
      }
      if latest >= meta.value.latest {
        return meta;
      }
      return Some(meta.value.(latest := latest));
    }

    /** Terminates for every budget, and ends in the one-shot result. */
    method RollbackActivity(slot: uint64) returns (r: Result<(), StorageError>)
      modifies this`meta, this`swaps
      ensures r.Err? ==> !WellKeyed(old(swaps))
      ensures WellKeyed(old(swaps)) ==> Contents() == RolledBackDisk(old(Contents()), slot)
    {
      ghost var start := Contents();
      while true
        invariant pools == start.pools
        invariant WellKeyed(start.swaps) ==> PartlyRolledBack(start, Contents(), slot)
        decreases |swaps|
      {
        ghost var before := Contents();
        var exhausted := RollbackActivityBatch(slot, maxBatchCount / 2, maxBatchSize / 2);
        if exhausted.Err? {
          return Err(exhausted.error);
        }
        if WellKeyed(before.swaps) {
          BatchIsPartOfRollback(before, slot, maxBatchCount / 2, maxBatchSize / 2, Contents(), exhausted.value);
        }
        if exhausted.value {
          return Ok(());
        }
      }
    }

    static ghost predicate PartlyRolledBack(start: Disk, d: Disk, slot: uint64) {
      WellKeyed(d.swaps) && RolledBackDisk(d, slot) == RolledBackDisk(start, slot)
    }

    method DeletePoolState(state: PoolState)
      modifies this`pools
      ensures pools == old(pools) - {StateKey(state)}
    {
      pools := pools - {StateKey(state)};
    }
  }
}
