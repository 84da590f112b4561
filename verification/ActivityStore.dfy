/** The durable activity store as a value: its keys, the order an iterator visits them in, and
    what each committed transaction does (internal/oracle/activity_storage.go). */
module ActivityStore {
  import opened Words
  import opened Text
  import opened Dex
  import opened ActivityRestore
  import opened ActivitySpec

  const ACTIVITY_KEY_PREFIX := "oracle_activity_swap_"
  const ACTIVITY_DELETE_ENTRY_OVERHEAD := 12

  type SwapTable = map<string, SwapTransition>

  datatype Metadata = Metadata(window: uint64, latest: uint64)

  datatype Disk = Disk(meta: Option<Metadata>, swaps: SwapTable, pools: map<string, PoolState>)

  // ----- keys -----

  /** Stands for the digest of the pool identity, which is taken to be collision free. */
  function PoolDigest(swap: SwapTransition): string {
    swap.network + ['\0'] + (swap.protocol + ['\0'] + swap.poolId)
  }

  function KeyTail(swap: SwapTransition): string {
    swap.txHash + [':'] + (Decimal(swap.txIndex) + [':'] + PoolDigest(swap))
  }

  function ActivityKey(swap: SwapTransition): string {
    ACTIVITY_KEY_PREFIX + (Padded(swap.slot, 20) + [':'] + KeyTail(swap))
  }

  function TrimPrefix(s: string, prefix: string): string {
    if prefix <= s then s[|prefix|..] else s
  }

  /** activitySlotFromKey. */
  function SlotFromKey(key: string): Option<uint64> {
    match Before(TrimPrefix(key, ACTIVITY_KEY_PREFIX), ':')
    case None => None
    case Some(text) => if |text| != 20 then None else ParseUint64(text)
  }

  /** The parts of a swap that are joined into a key do not contain the separators. */
  predicate WellNamed(swap: SwapTransition) {
    ':' !in swap.txHash && '\0' !in swap.network && '\0' !in swap.protocol
  }

  lemma SlotFitsKey(slot: uint64)
    ensures slot < Pow10(20)
  {
    Pow10Of20();
  }

  /** The slot can be read back from the key, for every 64-bit slot. */
  lemma KeyHoldsSlot(swap: SwapTransition)
    ensures SlotFromKey(ActivityKey(swap)) == Some(swap.slot)
  {
    var text := Padded(swap.slot, 20);
    assert TrimPrefix(ActivityKey(swap), ACTIVITY_KEY_PREFIX) == text + [':'] + KeyTail(swap);
    assert ':' !in text;
    BeforeJoined(text, ':', KeyTail(swap));
    SlotFitsKey(swap.slot);
    PaddedValue(swap.slot, 20);
  }

  /** A slot is read from exactly those keys that have twenty digits up to the separator, and a value
      that fits a word. */
  lemma SlotReadIff(text: string, tail: string, slot: uint64)
    requires ':' !in text
    ensures SlotFromKey(ACTIVITY_KEY_PREFIX + (text + [':'] + tail)) == Some(slot)
       <==> |text| == 20 && AllDigits(text) && Value(text) == slot
  {
    var key := ACTIVITY_KEY_PREFIX + (text + [':'] + tail);
    assert TrimPrefix(key, ACTIVITY_KEY_PREFIX) == text + [':'] + tail;
    BeforeJoined(text, ':', tail);
  }

  /** Key order refines slot order, so a scan in key order meets slots in order. */
  lemma KeyOrderIsSlotOrder(a: SwapTransition, b: SwapTransition)
    requires a.slot != b.slot
    ensures LexLess(ActivityKey(a), ActivityKey(b)) <==> a.slot < b.slot
  {
    var x, y := Padded(a.slot, 20), Padded(b.slot, 20);
    SlotFitsKey(a.slot);
    SlotFitsKey(b.slot);
    PaddedValue(a.slot, 20);
    PaddedValue(b.slot, 20);
    PaddedOrder(a.slot, b.slot, 20);
    LexCommonPrefix(ACTIVITY_KEY_PREFIX, x + [':'] + KeyTail(a), y + [':'] + KeyTail(b));
    assert x + [':'] + KeyTail(a) == x + ([':'] + KeyTail(a)) && y + [':'] + KeyTail(b) == y + ([':'] + KeyTail(b));
    LexHeadDecides(x, [':'] + KeyTail(a), y, [':'] + KeyTail(b));
  }

  /** A reverse scan is seeded with the prefix and a trailing 0xff, which is above every key. */
  lemma ReverseSeekIsAbove(swap: SwapTransition)
    ensures LexLess(ActivityKey(swap), ACTIVITY_KEY_PREFIX + [0xff as char])
  {
    var text := Padded(swap.slot, 20) + [':'] + KeyTail(swap);
    LexCommonPrefix(ACTIVITY_KEY_PREFIX, text, [0xff as char]);
    assert text[0] == Padded(swap.slot, 20)[0];
    assert IsDigit(Padded(swap.slot, 20)[0]);
  }

  /** Different swaps have different keys. */
  lemma KeyInjective(a: SwapTransition, b: SwapTransition)
    requires WellNamed(a) && WellNamed(b) && ActivityKey(a) == ActivityKey(b)
    ensures a.Identity() == b.Identity()
  {
    var n := |ACTIVITY_KEY_PREFIX|;
    var x, y := Padded(a.slot, 20), Padded(b.slot, 20);
    assert x + [':'] + KeyTail(a) == ActivityKey(a)[n..] == ActivityKey(b)[n..] == y + [':'] + KeyTail(b);
    JoinInjective(x, KeyTail(a), y, KeyTail(b), ':');
    KeyHoldsSlot(a);
    KeyHoldsSlot(b);
    JoinInjective(a.txHash, Decimal(a.txIndex) + [':'] + PoolDigest(a), b.txHash, Decimal(b.txIndex) + [':'] + PoolDigest(b), ':');
    JoinInjective(Decimal(a.txIndex), PoolDigest(a), Decimal(b.txIndex), PoolDigest(b), ':');
    DecimalInjective(a.txIndex, b.txIndex);
    JoinInjective(a.network, a.protocol + ['\0'] + a.poolId, b.network, b.protocol + ['\0'] + b.poolId, '\0');
    JoinInjective(a.protocol, a.poolId, b.protocol, b.poolId, '\0');
  }

  // ----- iteration order -----

  predicate IsLeast(keys: set<string>, key: string) {
    key in keys && forall k :: k in keys ==> k == key || LexLess(key, k)
  }

  predicate IsGreatest(keys: set<string>, key: string) {
    key in keys && forall k :: k in keys ==> k == key || LexLess(k, key)
  }

  lemma {:induction false} LeastExists(keys: set<string>)
    requires keys != {}
    ensures exists key :: IsLeast(keys, key)
  {
    var x :| x in keys;
    if keys == {x} {
      assert IsLeast(keys, x);
    } else {
      LeastExists(keys - {x});
      var y :| IsLeast(keys - {x}, y);
      LexTotal(x, y);
      if LexLess(x, y) {
        forall k | k in keys ensures k == x || LexLess(x, k) {
          if k != x && k != y {
            LexTransitive(x, y, k);
          }
        }
        assert IsLeast(keys, x);
      } else {
        assert IsLeast(keys, y);
      }
    }
  }

  lemma {:induction false} GreatestExists(keys: set<string>)
    requires keys != {}
    ensures exists key :: IsGreatest(keys, key)
  {
    var x :| x in keys;
    if keys == {x} {
      assert IsGreatest(keys, x);
    } else {
      GreatestExists(keys - {x});
      var y :| IsGreatest(keys - {x}, y);
      LexTotal(x, y);
      if LexLess(y, x) {
        forall k | k in keys ensures k == x || LexLess(k, x) {
          if k != x && k != y {
            LexTransitive(k, y, x);
          }
        }
        assert IsGreatest(keys, x);
      } else {
        assert IsGreatest(keys, y);
      }
    }
  }

  predicate WellKeyed(swaps: SwapTable) { forall k :: k in swaps ==> k == ActivityKey(swaps[k]) }

  lemma SlotsFollowKeys(swaps: SwapTable, a: string, b: string)
    requires WellKeyed(swaps) && a in swaps && b in swaps && LexLess(a, b)
    ensures swaps[a].slot <= swaps[b].slot
  {
    LexAsymmetric(a, b);
    if swaps[b].slot < swaps[a].slot {
      KeyOrderIsSlotOrder(swaps[b], swaps[a]);
    }
  }

  // ----- what the two scans select -----

  function Entry(key: string): nat { |key| + ACTIVITY_DELETE_ENTRY_OVERHEAD }

  function Size(keys: seq<string>): nat {
    if keys == [] then 0 else Size(keys[..|keys| - 1]) + Entry(keys[|keys| - 1])
  }

  predicate NoRepeats(keys: seq<string>) { forall i, j :: 0 <= i < j < |keys| ==> keys[i] != keys[j] }

  predicate Fits(keys: seq<string>, maxCount: int, maxSize: int) { |keys| <= maxCount && Size(keys) <= maxSize }

  function Joined(keys: seq<string>): string {
    if keys == [] then "" else Joined(keys[..|keys| - 1]) + keys[|keys| - 1]
  }

  lemma {:induction false} SizeIsLength(keys: seq<string>)
    ensures Size(keys) == |Joined(keys)| + 12 * |keys|
  {
    if keys != [] {
      SizeIsLength(keys[..|keys| - 1]);
    }
  }

  /** A budget limits the number of keys, and their text with twelve bytes for each. */
  lemma FitsIff(keys: seq<string>, maxCount: int, maxSize: int)
    ensures Fits(keys, maxCount, maxSize) <==> |keys| <= maxCount && |Joined(keys)| + 12 * |keys| <= maxSize
  {
    SizeIsLength(keys);
  }

  /** The oldest keys below the cutoff, as many as the budget allows. */
  ghost predicate PruneSelection(swaps: SwapTable, cutoff: uint64, maxCount: int, maxSize: int, keys: seq<string>) {
    && NoRepeats(keys)
    && (forall k :: k in keys ==> k in swaps && swaps[k].slot < cutoff)
    && (forall k, d :: k in swaps && k !in keys && d in keys ==> LexLess(d, k))
    && (keys != [] ==> Fits(keys, maxCount, maxSize))
    && (forall next :: IsLeast(swaps.Keys - (set d | d in keys), next) && swaps[next].slot < cutoff ==>
          !Fits(keys + [next], maxCount, maxSize))
  }

  predicate Ordered(keys: seq<string>, i: nat, j: nat)
    requires i < |keys| && j < |keys|
  {
    LexLess(keys[i], keys[j])
  }

  predicate Ascending(keys: seq<string>) { forall i, j :: 0 <= i < j < |keys| ==> Ordered(keys, i, j) }

  predicate Descending(keys: seq<string>) { forall i, j :: 0 <= i < j < |keys| ==> Ordered(keys, j, i) }

  /** The newest keys at or after the slot, newest first, cut on a slot boundary once the budget is
      spent. */
  ghost predicate RollbackSelection(
    swaps: SwapTable, slot: uint64, maxCount: int, maxSize: int, keys: seq<string>, lowest: uint64, done: bool)
  {
    && NoRepeats(keys) && Descending(keys)
    && (forall k :: k in keys ==> k in swaps)
    && (forall k :: k in swaps ==> (k in keys <==> swaps[k].slot >= if done then slot else lowest))
    && (lowest == if keys == [] then slot else swaps[keys[|keys| - 1]].slot)
    && (!done ==> keys != [] && lowest > slot && StopsForBudget(swaps, slot, maxCount, maxSize, keys))
    && OnBudget(swaps, maxCount, maxSize, keys)
  }

  /** Every key that starts a slot, after the first slot, still fits the budget. */
  ghost predicate OnBudget(swaps: SwapTable, maxCount: int, maxSize: int, keys: seq<string>)
    requires forall k :: k in keys ==> k in swaps
  {
    forall i :: 0 < i < |keys| && swaps[keys[i]].slot != swaps[keys[i - 1]].slot ==>
      Fits(keys[..i + 1], maxCount, maxSize)
  }

  ghost predicate StopsForBudget(swaps: SwapTable, slot: uint64, maxCount: int, maxSize: int, keys: seq<string>) {
    exists next :: IsGreatest(swaps.Keys - (set d | d in keys), next) && swaps[next].slot >= slot
                   && !Fits(keys + [next], maxCount, maxSize)
  }

  function Without(swaps: SwapTable, keys: seq<string>): SwapTable {
    map k | k in swaps && k !in keys :: swaps[k]
  }

  // ----- transactions -----

  const POOL_STATE_KEY_PREFIX := "oracle_pool_"

  function PoolStateKey(network: string, protocol: string, poolId: string): string {
    POOL_STATE_KEY_PREFIX + network + ":" + protocol + ":" + poolId
  }

  function StateKey(p: PoolState): string { PoolStateKey(p.network, p.protocol, p.poolId) }

  /** Keys of pool states tell pools apart when network and protocol do not contain the separator. */
  lemma StateKeyIff(p: PoolState, q: PoolState)
    requires ':' !in p.network && ':' !in p.protocol && ':' !in q.network && ':' !in q.protocol
    ensures StateKey(p) == StateKey(q) <==> p.network == q.network && p.protocol == q.protocol && p.poolId == q.poolId
  {
    if StateKey(p) == StateKey(q) {
      var n := |POOL_STATE_KEY_PREFIX|;
      assert p.network + [':'] + (p.protocol + [':'] + p.poolId) == StateKey(p)[n..];
      assert q.network + [':'] + (q.protocol + [':'] + q.poolId) == StateKey(q)[n..];
      JoinInjective(p.network, p.protocol + [':'] + p.poolId, q.network, q.protocol + [':'] + q.poolId, ':');
      JoinInjective(p.protocol, p.poolId, q.protocol, q.poolId, ':');
    }
  }

  function SavedMetadata(meta: Option<Metadata>, slot: uint64, window: uint64): Metadata {
    match meta
    case None => Metadata(window, slot)
    case Some(m) => m.(latest := Max(m.latest, slot))
  }

  /** A save commits the state, its swap and the metadata, then prunes a selection of old keys. */
  ghost predicate Saved(before: Disk, state: PoolState, swap: Option<SwapTransition>, window: uint64,
                        maxCount: int, maxSize: int, after: Disk)
  {
    var meta := SavedMetadata(before.meta, state.slot, window);
    var swaps := if swap.Some? then before.swaps[ActivityKey(swap.value) := swap.value] else before.swaps;
    && after.meta == Some(meta)
    && after.pools == before.pools[StateKey(state) := state]
    && exists keys :: PruneSelection(swaps, Cutoff(meta.latest, window), maxCount, maxSize, keys)
                      && after.swaps == Without(swaps, keys)
  }

  /** rewindActivityMeta. */
  function Rewound(meta: Option<Metadata>, firstInvalid: uint64): Option<Metadata> {
    match meta
    case None => None
    case Some(m) => Some(m.(latest := RollbackTip(m.latest, firstInvalid)))
  }

  /** One committed batch of a rollback. */
  ghost predicate Batch(before: Disk, slot: uint64, maxCount: int, maxSize: int, after: Disk, done: bool) {
    exists keys, lowest: uint64 ::
      && RollbackSelection(before.swaps, slot, maxCount, maxSize, keys, lowest, done)
      && after == before.(meta := Rewound(before.meta, if done then slot else lowest),
                          swaps := Without(before.swaps, keys))
  }

  lemma SelectionIsBatch(before: Disk, slot: uint64, maxCount: int, maxSize: int,
                         keys: seq<string>, lowest: uint64, done: bool)
    ensures RollbackSelection(before.swaps, slot, maxCount, maxSize, keys, lowest, done) ==>
      Batch(before, slot, maxCount, maxSize,
            before.(meta := Rewound(before.meta, if done then slot else lowest), swaps := Without(before.swaps, keys)), done)
  {
  }

  /** The swaps below a slot. */
  function BelowSlot(swaps: SwapTable, slot: uint64): SwapTable { map k | k in swaps && swaps[k].slot < slot :: swaps[k] }

  /** What a rollback does in one shot. */
  function RolledBackDisk(d: Disk, slot: uint64): Disk {
    d.(meta := Rewound(d.meta, slot), swaps := BelowSlot(d.swaps, slot))
  }

  // ----- the invariant of every committed state -----

  ghost predicate DiskOk(d: Disk) {
    && WellKeyed(d.swaps)
    && (d.meta.None? ==> d.swaps == map[])
    && (d.meta.Some? ==> d.meta.value.window > 0)
    && (forall k :: k in d.swaps ==> ValidSwap(d.swaps[k], d.meta.value.latest) && WellNamed(d.swaps[k]))
  }

  lemma WithoutKeepsOk(d: Disk, keys: seq<string>)
    requires DiskOk(d)
    ensures DiskOk(d.(swaps := Without(d.swaps, keys)))
  {
  }

  /** The disk before a save prunes. */
  function Unpruned(before: Disk, state: PoolState, swap: Option<SwapTransition>, window: uint64): Disk {
    Disk(Some(SavedMetadata(before.meta, state.slot, window)),
         if swap.Some? then before.swaps[ActivityKey(swap.value) := swap.value] else before.swaps,
         before.pools[StateKey(state) := state])
  }

  lemma UnprunedOk(before: Disk, state: PoolState, swap: Option<SwapTransition>, window: uint64)
    requires DiskOk(before) && window > 0
    requires swap.Some? ==> WellNamed(swap.value) && ValidSwap(swap.value, state.slot)
    ensures DiskOk(Unpruned(before, state, swap, window))
  {
    var d := Unpruned(before, state, swap, window);
    forall k | k in d.swaps
      ensures k == ActivityKey(d.swaps[k]) && ValidSwap(d.swaps[k], d.meta.value.latest) && WellNamed(d.swaps[k])
    {
      UnprunedEntryOk(before, state, swap, window, k);
    }
  }

  lemma UnprunedEntryOk(before: Disk, state: PoolState, swap: Option<SwapTransition>, window: uint64, k: string)
    requires swap.Some? ==> WellNamed(swap.value) && ValidSwap(swap.value, state.slot)
    requires DiskOk(before) && k in Unpruned(before, state, swap, window).swaps
    ensures var d := Unpruned(before, state, swap, window);
      k == ActivityKey(d.swaps[k]) && ValidSwap(d.swaps[k], d.meta.value.latest) && WellNamed(d.swaps[k])
  {
    if k in before.swaps {
      assert ValidSwap(before.swaps[k], before.meta.value.latest);
    }
  }

  lemma SaveKeepsOk(before: Disk, state: PoolState, swap: Option<SwapTransition>, window: uint64,
                    maxCount: int, maxSize: int, after: Disk)
    requires DiskOk(before) && window > 0
    requires swap.Some? ==> WellNamed(swap.value) && ValidSwap(swap.value, state.slot)
    requires Saved(before, state, swap, window, maxCount, maxSize, after)
    ensures DiskOk(after)
  {
    var d := Unpruned(before, state, swap, window);
    var keys :| PruneSelection(d.swaps, Cutoff(d.meta.value.latest, window), maxCount, maxSize, keys)
                && after.swaps == Without(d.swaps, keys);
    UnprunedOk(before, state, swap, window);
    WithoutKeepsOk(d, keys);
    assert after == d.(swaps := Without(d.swaps, keys));
  }

  /** Pruning removes only swaps below the cutoff, and all of them when the budget allows. */
  lemma PruneMissesNothing(swaps: SwapTable, cutoff: uint64, maxCount: int, maxSize: int, keys: seq<string>)
    requires WellKeyed(swaps)
    requires PruneSelection(swaps, cutoff, maxCount, maxSize, keys)
    requires forall k :: k in swaps && k !in keys ==> Fits(keys + [k], maxCount, maxSize)
    ensures forall k :: k in swaps ==> (k in keys <==> swaps[k].slot < cutoff)
  {
    var rest := swaps.Keys - (set d | d in keys);
    forall k | k in swaps ensures k in keys <==> swaps[k].slot < cutoff {
      if k !in keys {
        assert k in rest;
        LeastExists(rest);
        var next :| IsLeast(rest, next);
        if k != next {
          SlotsFollowKeys(swaps, next, k);
        }
      }
    }
  }

  lemma BatchKeepsOk(before: Disk, slot: uint64, maxCount: int, maxSize: int, after: Disk, done: bool)
    requires DiskOk(before)
    requires Batch(before, slot, maxCount, maxSize, after, done)
    ensures DiskOk(after)
  {
  }

  lemma SelectionRemoves(swaps: SwapTable, slot: uint64, keys: seq<string>, from: uint64)
    requires from >= slot && forall k :: k in swaps ==> (k in keys <==> swaps[k].slot >= from)
    ensures BelowSlot(Without(swaps, keys), slot) == BelowSlot(swaps, slot)
    ensures from == slot ==> Without(swaps, keys) == BelowSlot(swaps, slot)
  {
  }

  lemma RemovalIsPart(before: Disk, slot: uint64, keys: seq<string>, from: uint64)
    requires from >= slot && forall k :: k in before.swaps ==> (k in keys <==> before.swaps[k].slot >= from)
    ensures var after := before.(meta := Rewound(before.meta, from), swaps := Without(before.swaps, keys));
      && RolledBackDisk(after, slot) == RolledBackDisk(before, slot)
      && (from == slot ==> after == RolledBackDisk(before, slot))
  {
    SelectionRemoves(before.swaps, slot, keys, from);
  }

  /** A batch is a step of the one-shot rollback: the rest of the rollback reaches the same disk,
      and the last batch reaches it itself. */
  lemma BatchIsPartOfRollback(before: Disk, slot: uint64, maxCount: int, maxSize: int, after: Disk, done: bool)
    requires Batch(before, slot, maxCount, maxSize, after, done)
    ensures RolledBackDisk(after, slot) == RolledBackDisk(before, slot)
    ensures done ==> after == RolledBackDisk(before, slot)
    ensures !done ==> |after.swaps| < |before.swaps|
  {
    var keys, lowest: uint64 :| RollbackSelection(before.swaps, slot, maxCount, maxSize, keys, lowest, done)
      && after == before.(meta := Rewound(before.meta, if done then slot else lowest),
                          swaps := Without(before.swaps, keys));
    RemovalIsPart(before, slot, keys, if done then slot else lowest);
    if !done {
      SelectionShrinks(before.swaps, keys);
    }
  }

  lemma SelectionShrinks(swaps: SwapTable, keys: seq<string>)
    requires keys != [] && forall k :: k in keys ==> k in swaps
    ensures |Without(swaps, keys)| < |swaps|
  {
    assert keys[0] in keys && keys[0] !in Without(swaps, keys);
    SmallerTable(Without(swaps, keys), swaps, keys[0]);
  }

  lemma SmallerTable(a: SwapTable, b: SwapTable, k: string)
    requires a.Keys <= b.Keys && k in b && k !in a
    ensures |a| < |b|
  {
    SmallerSet(a.Keys, b.Keys, k);
  }

  lemma SmallerSet(a: set<string>, b: set<string>, k: string)
    requires a <= b && k in b && k !in a
    ensures |a| < |b|
  {
    assert |b - a| >= 1 by {
      assert k in b - a;
    }
    assert b == a + (b - a) && a !! (b - a);
    assert |b| == |a| + |b - a|;
  }

  /** A rollback that was stopped after any committed batches, each with any budget. */
  ghost predicate Interrupted(disks: seq<Disk>, slot: uint64) {
    && disks != []
    && forall i :: 0 <= i < |disks| - 1 ==> Resumable(disks[i], slot, disks[i + 1])
  }

  ghost predicate Resumable(before: Disk, slot: uint64, after: Disk) {
    exists maxCount: int, maxSize: int, done :: Batch(before, slot, maxCount, maxSize, after, done)
  }

  /** Wherever a rollback was interrupted, the disk is valid and running the rollback again reaches
      the one-shot result. */
  lemma {:induction false} InterruptedRollbackResumes(disks: seq<Disk>, slot: uint64)
    requires Interrupted(disks, slot)
    ensures RolledBackDisk(disks[|disks| - 1], slot) == RolledBackDisk(disks[0], slot)
    ensures DiskOk(disks[0]) ==> DiskOk(disks[|disks| - 1])
  {
    if |disks| > 1 {
      var n := |disks| - 2;
      var prefix := disks[..n + 1];
      forall i | 0 <= i < |prefix| - 1 ensures Resumable(prefix[i], slot, prefix[i + 1]) {
        assert Resumable(disks[i], slot, disks[i + 1]);
      }
      InterruptedRollbackResumes(prefix, slot);
      assert Resumable(disks[n], slot, disks[n + 1]);
      var maxCount: int, maxSize: int, done :| Batch(disks[n], slot, maxCount, maxSize, disks[n + 1], done);
      BatchIsPartOfRollback(disks[n], slot, maxCount, maxSize, disks[n + 1], done);
      if DiskOk(disks[0]) {
        BatchKeepsOk(disks[n], slot, maxCount, maxSize, disks[n + 1], done);
      }
    }
  }

  // ----- loading -----

  /** The stored swaps in key order. */
  ghost predicate LoadedFrom(d: Disk, state: ActivityState) {
    match d.meta
    case None => d.swaps == map[] && state == ActivityState(0, 0, [])
    case Some(m) =>
      && m.window > 0 && state.window == m.window && state.latest == m.latest
      && exists keys: seq<string> ::
           && NoRepeats(keys) && Ascending(keys) && |keys| == |state.swaps|
           && (forall k :: k in keys <==> k in d.swaps)
           && (forall i :: 0 <= i < |keys| ==> state.swaps[i] == d.swaps[keys[i]])
  }

  ghost predicate Stored(d: Disk, e: SwapTransition) { ActivityKey(e) in d.swaps && d.swaps[ActivityKey(e)] == e }

  lemma LoadedByKeys(d: Disk, swaps: seq<SwapTransition>, keys: seq<string>)
    requires WellKeyed(d.swaps)
    requires NoRepeats(keys) && |keys| == |swaps| && forall k :: k in keys <==> k in d.swaps
    requires forall i :: 0 <= i < |keys| ==> swaps[i] == d.swaps[keys[i]]
    ensures forall i :: 0 <= i < |keys| ==> keys[i] == ActivityKey(swaps[i])
    ensures DistinctIdentities(swaps)
    ensures forall i :: 0 <= i < |swaps| ==> Stored(d, swaps[i])
  {
    forall i | 0 <= i < |keys| ensures keys[i] == ActivityKey(swaps[i]) && Stored(d, swaps[i]) {
      assert keys[i] in keys;
    }
    forall i, j | 0 <= i < j < |swaps| ensures swaps[i].Identity() != swaps[j].Identity() {
      KeyOfIdentity(swaps[i], swaps[j]);
    }
  }

  lemma KeyOfIdentity(a: SwapTransition, b: SwapTransition)
    ensures a.Identity() == b.Identity() ==> ActivityKey(a) == ActivityKey(b)
  {
  }

  lemma LoadedAt(d: Disk, swaps: seq<SwapTransition>, keys: seq<string>, e: SwapTransition)
    requires |keys| == |swaps| && forall k :: k in keys <==> k in d.swaps
    requires forall i :: 0 <= i < |keys| ==> swaps[i] == d.swaps[keys[i]]
    requires Stored(d, e)
    ensures e in swaps
  {
    assert ActivityKey(e) in keys;
    var i :| 0 <= i < |keys| && keys[i] == ActivityKey(e);
    assert swaps[i] == e;
  }

  lemma LoadedAllStored(d: Disk, state: ActivityState)
    requires WellKeyed(d.swaps) && LoadedFrom(d, state)
    ensures DistinctIdentities(state.swaps)
    ensures forall e :: e in state.swaps <==> Stored(d, e)
  {
    if d.meta.Some? {
      var keys: seq<string> :| NoRepeats(keys) && |keys| == |state.swaps|
             && (forall k :: k in keys <==> k in d.swaps)
             && (forall i :: 0 <= i < |keys| ==> state.swaps[i] == d.swaps[keys[i]]);
      LoadedByKeys(d, state.swaps, keys);
      forall e | Stored(d, e) ensures e in state.swaps {
        LoadedAt(d, state.swaps, keys, e);
      }
    }
  }

  /** What is loaded from a valid disk can be restored, and the tracker then holds exactly the
      stored swaps inside the window. */
  lemma LoadedRestores(d: Disk, state: ActivityState, t: Tracker)
    requires DiskOk(d) && LoadedFrom(d, state) && d.meta.Some? && t.window == d.meta.value.window
    ensures Restored(t, state).Ok?
    ensures var r := Restored(t, state).value;
            && TrackerOk(r) && r.window == t.window && r.latest == d.meta.value.latest
            && forall k, e :: e in At(r.swaps, k) <==>
                 Stored(d, e) && e.Key() == k && e.slot >= Cutoff(r.latest, t.window)
  {
    LoadedAllStored(d, state);
    forall i | 0 <= i < |state.swaps| ensures ValidSwap(state.swaps[i], state.latest) {
      assert Stored(d, state.swaps[i]);
    }
    RestoredExactly(t, state);
  }
}
