/** Snapshot and restore of the activity tracker, and the invariant that every operation keeps so
    that a snapshot can always be restored (dex/activity_state.go). */
module ActivityRestore {
  import opened Words
  import opened Dex
  import opened ActivityLists
  import opened ActivitySpec

  function Grouped(s: seq<SwapTransition>): SwapMap {
    if s == [] then map[] else Appended(Grouped(s[..|s| - 1]), s[|s| - 1])
  }

  lemma {:induction false} GroupedAt(s: seq<SwapTransition>, key: string)
    ensures At(Grouped(s), key) == OfPool(s, key)
  {
    if s != [] {
      GroupedAt(s[..|s| - 1], key);
    }
  }

  predicate AllValid(s: seq<SwapTransition>, latest: int) {
    forall i :: 0 <= i < |s| ==> ValidSwap(s[i], latest)
  }

  /** dex/activity_state.go, Restore. */
  function Restored(t: Tracker, state: ActivityState): Result<Tracker, ActivityError> {
    if state.window == 0 then Err(ErrInvalidActivityState)
    else if state.window != t.window then Err(ErrActivityWindowChanged)
    else if !AllValid(state.swaps, state.latest) then Err(ErrInvalidActivityState)
    else if !DistinctIdentities(state.swaps) then Err(ErrInvalidActivityState)
    else Ok(Tracker(t.window, state.latest,
                    Pruned(Grouped(Sorted(state.swaps)), Cutoff(state.latest, t.window))))
  }

  // ----- duplicates are adjacent after sorting -----

  lemma {:induction false} LastOfPool(s: seq<SwapTransition>, key: string) returns (i: nat)
    requires OfPool(s, key) != []
    ensures i < |s| && s[i] == OfPool(s, key)[|OfPool(s, key)| - 1]
    ensures forall j :: i < j < |s| ==> s[j].Key() != key
  {
    if s[|s| - 1].Key() == key {
      i := |s| - 1;
    } else {
      i := LastOfPool(s[..|s| - 1], key);
    }
  }

  /** In a sorted list the check against the last swap of the same pool finds every repetition. */
  lemma LastOfPoolFindsDuplicate(s: seq<SwapTransition>, swap: SwapTransition)
    requires SwapSorted(s + [swap])
    ensures var own := OfPool(s, swap.Key());
            (own != [] && own[|own| - 1].Identity() == swap.Identity()) <==>
            exists i :: 0 <= i < |s| && s[i].Identity() == swap.Identity()
  {
    var own := OfPool(s, swap.Key());
    OfPoolMembers(s, swap.Key());
    if i :| 0 <= i < |s| && s[i].Identity() == swap.Identity() {
      assert s[i] in own;
      var l := LastOfPool(s, swap.Key());
      assert (s + [swap])[i] == s[i] && (s + [swap])[l] == s[l] && (s + [swap])[|s|] == swap;
      IdentityTotal(s[i].Identity(), s[l].Identity());
      assert l >= i;
    }
    if own != [] && own[|own| - 1].Identity() == swap.Identity() {
      var l := LastOfPool(s, swap.Key());
    }
  }

  /** One step of grouping a sorted list: the check on the last swap decides whether the longer
      prefix still has distinct identities. */
  lemma GroupNext(sorted: seq<SwapTransition>, i: nat)
    requires SwapSorted(sorted) && i < |sorted| && DistinctIdentities(sorted[..i])
    ensures var own := At(Grouped(sorted[..i]), sorted[i].Key());
            (own != [] && own[|own| - 1].Identity() == sorted[i].Identity()) <==> !DistinctIdentities(sorted[..i + 1])
    ensures Grouped(sorted[..i + 1]) == Appended(Grouped(sorted[..i]), sorted[i])
    ensures !DistinctIdentities(sorted[..i + 1]) ==> !DistinctIdentities(sorted)
  {
    var prefix := sorted[..i];
    assert sorted[..i + 1] == prefix + [sorted[i]];
    GroupedAt(prefix, sorted[i].Key());
    LastOfPoolFindsDuplicate(prefix, sorted[i]);
  }

  /** The same step on the lists built so far. */
  lemma GroupStep(sorted: seq<SwapTransition>, i: nat, restored: SwapMap, own: seq<SwapTransition>)
    requires SwapSorted(sorted) && i < |sorted| && DistinctIdentities(sorted[..i])
    requires restored == Grouped(sorted[..i]) && own == At(restored, sorted[i].Key())
    ensures if own != [] && own[|own| - 1].Identity() == sorted[i].Identity()
            then !DistinctIdentities(sorted)
            else DistinctIdentities(sorted[..i + 1]) && Grouped(sorted[..i + 1]) == restored[sorted[i].Key() := own + [sorted[i]]]
  {
    GroupNext(sorted, i);
  }

  lemma CountsOfPair(s: seq<SwapTransition>, i: nat, j: nat)
    requires i < j < |s|
    ensures s[i] == s[j] ==> multiset(s)[s[j]] >= 2
  {
    assert s == s[..j] + s[j..];
    assert s[..j][i] == s[i] && s[j..][0] == s[j];
    assert s[i] in multiset(s[..j]) && s[j] in multiset(s[j..]);
  }

  lemma DistinctByCounts(s: seq<SwapTransition>)
    requires forall a, b :: a in s && b in s && a.Identity() == b.Identity() ==> a == b
    requires forall e :: multiset(s)[e] <= 1
    ensures DistinctIdentities(s)
  {
    forall i, j | 0 <= i < j < |s| ensures s[i].Identity() != s[j].Identity() {
      CountsOfPair(s, i, j);
    }
  }

  lemma DistinctOfPermutation(a: seq<SwapTransition>, b: seq<SwapTransition>)
    requires multiset(a) == multiset(b) && DistinctIdentities(a)
    ensures DistinctIdentities(b)
  {
    forall e ensures multiset(b)[e] <= 1 {
      DistinctCounts(a, e);
    }
    forall x, y | x in b && y in b && x.Identity() == y.Identity() ensures x == y {
      assert x in multiset(a) && y in multiset(a);
    }
    DistinctByCounts(b);
  }

  // ----- the invariant of a tracker fed by ObserveTransition -----

  ghost predicate ListOk(s: seq<SwapTransition>, key: string, from: int, latest: int) {
    && SlotSorted(s)
    && DistinctIdentities(s)
    && (forall i :: 0 <= i < |s| ==> ValidSwap(s[i], latest) && s[i].Key() == key && s[i].slot >= from)
  }

  ghost predicate TrackerOk(t: Tracker) {
    && t.window > 0
    && (forall k :: ListOk(At(t.swaps, k), k, Cutoff(t.latest, t.window), t.latest))
    && (forall k :: k in t.swaps ==> t.swaps[k] != [])
  }

  /** What the oracle hands to the tracker: a confirmed state with a complete identity. */
  predicate ConfirmedPool(p: PoolState) {
    && p.poolId != "" && p.network != "" && p.protocol != ""
    && p.assetX.cls != p.assetY.cls && !p.fromMempool
  }

  lemma {:induction false} FromCutoffIsSuffix(s: seq<SwapTransition>, cutoff: int) returns (n: nat)
    ensures n <= |s| && FromCutoff(s, cutoff) == s[n..]
    ensures forall i :: 0 <= i < n ==> s[i].slot < cutoff
    ensures n < |s| ==> s[n].slot >= cutoff
  {
    if s != [] && s[0].slot < cutoff {
      var m := FromCutoffIsSuffix(s[1..], cutoff);
      n := m + 1;
      assert forall i :: 1 <= i < n ==> s[i] == s[1..][i - 1];
    } else {
      n := 0;
    }
  }

  lemma {:induction false} BeforeSlotIsPrefix(s: seq<SwapTransition>, slot: int) returns (n: nat)
    ensures n <= |s| && BeforeSlot(s, slot) == s[..n]
    ensures forall i :: n <= i < |s| ==> s[i].slot >= slot
    ensures n > 0 ==> s[n - 1].slot < slot
  {
    if s != [] && s[|s| - 1].slot >= slot {
      n := BeforeSlotIsPrefix(s[..|s| - 1], slot);
    } else {
      n := |s|;
      assert s == s[..n];
    }
  }

  lemma PruneListOk(s: seq<SwapTransition>, key: string, from: int, latest: int, cutoff: int)
    requires ListOk(s, key, from, latest)
    ensures ListOk(FromCutoff(s, cutoff), key, Max(from, cutoff), latest)
    ensures forall e :: e in FromCutoff(s, cutoff) <==> e in s && e.slot >= cutoff
  {
    var n := FromCutoffIsSuffix(s, cutoff);
    forall e | e in s && e.slot >= cutoff ensures e in s[n..] {
      var i :| 0 <= i < |s| && s[i] == e;
      assert s[n..][i - n] == e;
    }
  }

  lemma PrefixOk(s: seq<SwapTransition>, n: nat, key: string, from: int, latest: int, cap: int)
    requires ListOk(s, key, from, latest) && n <= |s| && forall i :: 0 <= i < n ==> s[i].slot <= cap
    ensures ListOk(s[..n], key, from, cap)
  {
    var t := s[..n];
    assert forall i :: 0 <= i < |t| ==> t[i] == s[i];
  }

  lemma BeforeSlotSome(s: seq<SwapTransition>, slot: int, n: nat, e: SwapTransition)
    requires n <= |s| && BeforeSlot(s, slot) == s[..n]
    requires (forall i :: 0 <= i < n ==> s[i].slot < slot) && forall i :: n <= i < |s| ==> s[i].slot >= slot
    ensures e in BeforeSlot(s, slot) <==> e in s && e.slot < slot
  {
    if e in s && e.slot < slot {
      var i :| 0 <= i < |s| && s[i] == e;
      assert s[..n][i] == e;
    }
  }

  lemma SortedBefore(s: seq<SwapTransition>, n: nat, slot: int)
    requires SlotSorted(s) && n <= |s| && (n > 0 ==> s[n - 1].slot < slot)
    ensures forall i :: 0 <= i < n ==> s[i].slot < slot
  {
  }

  lemma RollbackListOk(s: seq<SwapTransition>, key: string, from: int, latest: int, slot: int)
    requires ListOk(s, key, from, latest)
    ensures ListOk(BeforeSlot(s, slot), key, from, Min(latest, Max(slot - 1, 0)))
    ensures forall e :: e in BeforeSlot(s, slot) <==> e in s && e.slot < slot
  {
    var n := BeforeSlotIsPrefix(s, slot);
    SortedBefore(s, n, slot);
    PrefixOk(s, n, key, from, latest, Min(latest, Max(slot - 1, 0)));
    forall e ensures e in BeforeSlot(s, slot) <==> e in s && e.slot < slot {
      BeforeSlotSome(s, slot, n, e);
    }
  }

  lemma AdvancedOk(t: Tracker, slot: uint64)
    requires TrackerOk(t) && slot >= t.latest
    ensures TrackerOk(Advanced(t, slot))
    ensures forall k, e :: e in At(Advanced(t, slot).swaps, k) <==>
                           e in At(t.swaps, k) && e.slot >= Cutoff(slot, t.window)
  {
    var c := Cutoff(slot, t.window);
    forall k
      ensures ListOk(At(Advanced(t, slot).swaps, k), k, c, slot)
      ensures forall e :: e in At(Advanced(t, slot).swaps, k) <==> e in At(t.swaps, k) && e.slot >= c
    {
      assert At(Pruned(t.swaps, c), k) == FromCutoff(At(t.swaps, k), c);
      PruneListOk(At(t.swaps, k), k, Cutoff(t.latest, t.window), t.latest, c);
    }
  }

  lemma RecordedOk(t: Tracker, swap: SwapTransition)
    requires TrackerOk(t) && swap.slot == t.latest && ValidSwap(swap, t.latest)
    requires forall e :: e in At(t.swaps, swap.Key()) ==> e.Identity() != swap.Identity()
    ensures TrackerOk(Record(t, swap))
    ensures forall k, e :: e in At(Record(t, swap).swaps, k) <==>
                           e in At(t.swaps, k) || (e == swap && k == swap.Key())
  {
    var own := At(t.swaps, swap.Key());
    assert ListOk(own, swap.Key(), Cutoff(t.latest, t.window), t.latest);
    assert ListOk(own + [swap], swap.Key(), Cutoff(t.latest, t.window), t.latest);
    assert forall k :: At(Record(t, swap).swaps, k) == if k == swap.Key() then own + [swap] else At(t.swaps, k);
  }

  /** The greatest slot that is not above the tip and lies below the rollback point, if there is one
      below it. */
  ghost predicate IsGreatestBelow(tip: uint64, latest: uint64, slot: uint64) {
    && tip <= latest && (slot > 0 ==> tip < slot) && (slot == 0 ==> tip == 0)
    && (tip == latest || tip + 1 >= slot)
  }

  lemma RollbackOk(t: Tracker, slot: uint64)
    requires TrackerOk(t)
    ensures TrackerOk(Rollback(t, slot))
    ensures forall k, e :: e in At(Rollback(t, slot).swaps, k) <==> e in At(t.swaps, k) && e.slot < slot
    ensures IsGreatestBelow(Rollback(t, slot).latest, t.latest, slot)
  {
    var latest := RollbackTip(t.latest, slot);
    var c := Cutoff(latest, t.window);
    var cut := RolledBack(t.swaps, slot);
    forall k
      ensures ListOk(At(Rollback(t, slot).swaps, k), k, c, latest)
      ensures forall e :: e in At(Rollback(t, slot).swaps, k) <==> e in At(t.swaps, k) && e.slot < slot
    {
      var own := At(t.swaps, k);
      assert At(cut, k) == BeforeSlot(own, slot);
      assert At(Pruned(cut, c), k) == FromCutoff(At(cut, k), c);
      RollbackListOk(own, k, Cutoff(t.latest, t.window), t.latest, slot);
      PruneListOk(BeforeSlot(own, slot), k, Cutoff(t.latest, t.window), latest, c);
    }
  }

  /** ObserveTransition keeps the invariant, and an accepted state changes the retained swaps only
      by what fell out of its window and by its own swap. */
  lemma ObserveTransitionOk(t: Tracker, previous: Option<PoolState>, current: PoolState)
    requires TrackerOk(t) && ConfirmedPool(current)
    ensures var o := ObserveTransition(t, previous, Some(current));
            && TrackerOk(o.tracker) && o.tracker.window == t.window
            && (o.result.Err? ==> o.tracker == t)
            && (o.result.Ok? ==>
                  && o.tracker.latest == current.slot
                  && forall k, e :: e in At(o.tracker.swaps, k) <==>
                       || (e in At(t.swaps, k) && e.slot >= Cutoff(current.slot, t.window))
                       || (o.result.value == Some(e) && k == e.Key()))
  {
    var o := ObserveTransition(t, previous, Some(current));
    if o.result.Ok? {
      var a := Advanced(t, current.slot);
      AdvancedOk(t, current.slot);
      if o.result.value.Some? {
        var swap := o.result.value.value;
        InferenceIsExact(previous.value, current, swap);
        RecordedOk(a, swap);
      }
    }
  }

  /** Observe by cases: refused only out of order or for a mismatch, and a swap is recorded exactly
      when one is inferred. */
  lemma ObserveOutcome(t: Tracker, previous: Option<PoolState>, current: PoolState)
    requires !current.fromMempool
    ensures var o := Observe(t, previous, Some(current));
      && (o.result == Err(ErrOutOfOrderActivity) <==> current.slot < t.latest)
      && (o.result == Err(ErrMismatchedPoolTransition) <==>
            current.slot >= t.latest && InferSwapTransition(previous, Some(current)) == Mismatch)
      && (o.result.Err? ==> o.tracker == t && o.result.error in {ErrOutOfOrderActivity, ErrMismatchedPoolTransition})
      && (forall x :: o.result == Ok(Some(x)) <==>
            current.slot >= t.latest && InferSwapTransition(previous, Some(current)) == Swap(x))
  {
  }

  /** A retained swap has the identity of this one and differs from it. */
  ghost predicate Conflicts(t: Tracker, x: SwapTransition) {
    exists e :: e in At(t.swaps, x.Key()) && e.Identity() == x.Identity() && e != x
  }

  /** ObserveTransition also refuses a swap that contradicts a retained one, and records one only when
      its identity is new. */
  lemma ObserveTransitionOutcome(t: Tracker, previous: Option<PoolState>, current: PoolState)
    requires TrackerOk(t) && !current.fromMempool
    ensures var o := ObserveTransition(t, previous, Some(current));
      var inference := InferSwapTransition(previous, Some(current));
      && (o.result == Err(ErrOutOfOrderActivity) <==> current.slot < t.latest)
      && (o.result == Err(ErrMismatchedPoolTransition) <==> current.slot >= t.latest && inference == Mismatch)
      && (o.result == Err(ErrInvalidActivityState) <==>
            current.slot >= t.latest && inference.Swap? && Conflicts(t, inference.swap))
      && (o.result.Err? ==>
            o.tracker == t
            && o.result.error in {ErrOutOfOrderActivity, ErrMismatchedPoolTransition, ErrInvalidActivityState})
      && (forall x :: o.result == Ok(Some(x)) <==>
            && current.slot >= t.latest && inference == Swap(x)
            && forall e :: e in At(t.swaps, x.Key()) ==> e.Identity() != x.Identity())
  {
    var inference := InferSwapTransition(previous, Some(current));
    if inference.Swap? {
      var x := inference.swap;
      var own := At(t.swaps, x.Key());
      assert ListOk(own, x.Key(), Cutoff(t.latest, t.window), t.latest);
      var first := FirstWithIdentity(own, x);
      if first.Some? {
        forall e | e in own && e.Identity() == x.Identity() ensures e == first.value {
          var i :| 0 <= i < |own| && own[i] == e;
          var j :| 0 <= j < |own| && own[j] == first.value;
        }
      }
    }
  }

  // ----- restore -----

  lemma SortedKeeps(swaps: seq<SwapTransition>, latest: int)
    requires AllValid(swaps, latest) && DistinctIdentities(swaps)
    ensures AllValid(Sorted(swaps), latest) && DistinctIdentities(Sorted(swaps)) && SlotSorted(Sorted(swaps))
    ensures forall e :: e in Sorted(swaps) <==> e in swaps
  {
    var s := Sorted(swaps);
    SortedProperties(swaps);
    SortedBySlot(s);
    DistinctOfPermutation(swaps, s);
    forall e ensures e in s <==> e in swaps {
      assert e in multiset(s) <==> e in multiset(swaps);
    }
    forall i | 0 <= i < |s| ensures ValidSwap(s[i], latest) {
      assert s[i] in swaps;
    }
  }

  lemma GroupedListOk(s: seq<SwapTransition>, latest: int, key: string)
    requires AllValid(s, latest) && DistinctIdentities(s) && SlotSorted(s)
    ensures ListOk(At(Grouped(s), key), key, 0, latest)
    ensures forall e :: e in At(Grouped(s), key) <==> e in s && e.Key() == key
  {
    var own := OfPool(s, key);
    GroupedAt(s, key);
    OfPoolMembers(s, key);
    OfPoolSorted(s, key);
    OfPoolDistinct(s, key);
    forall i | 0 <= i < |own| ensures ValidSwap(own[i], latest) && own[i].Key() == key {
      assert own[i] in own;
    }
  }

  lemma RestoredList(swaps: seq<SwapTransition>, latest: uint64, cutoff: uint64, key: string)
    requires AllValid(swaps, latest) && DistinctIdentities(swaps)
    ensures var own := At(Pruned(Grouped(Sorted(swaps)), cutoff), key);
            && ListOk(own, key, cutoff, latest)
            && forall e :: e in own <==> e in swaps && e.Key() == key && e.slot >= cutoff
  {
    SortedKeeps(swaps, latest);
    GroupedListOk(Sorted(swaps), latest, key);
    PruneListOk(At(Grouped(Sorted(swaps)), key), key, 0, latest, cutoff);
  }

  /** Restore accepts exactly the states with the tracker's window, valid swaps and no repeated
      identity, and what it then holds is the listed swaps inside the window. */
  lemma RestoredExactly(t: Tracker, state: ActivityState)
    requires t.window > 0
    ensures Restored(t, state).Ok? <==>
            state.window == t.window && AllValid(state.swaps, state.latest) && DistinctIdentities(state.swaps)
    ensures Restored(t, state).Ok? ==>
            var r := Restored(t, state).value;
            && TrackerOk(r) && r.window == t.window && r.latest == state.latest
            && forall k, e :: e in At(r.swaps, k) <==>
                 e in state.swaps && e.Key() == k && e.slot >= Cutoff(state.latest, t.window)
  {
    if Restored(t, state).Ok? {
      forall k {
        RestoredList(state.swaps, state.latest, Cutoff(state.latest, t.window), k);
      }
    }
  }

  /** A swap that lacks a name or an amount, exchanges an asset for itself, or lies above the tip. */
  predicate Malformed(e: SwapTransition, latest: uint64) {
    || e.poolId == "" || e.network == "" || e.protocol == ""
    || e.amountX == 0 || e.amountY == 0 || e.assetX == e.assetY || e.slot > latest
  }

  /** Restore refuses a state of another window as such, and an invalid one, or one without a window,
      as invalid. */
  lemma RestoreRefusals(t: Tracker, state: ActivityState)
    ensures var r := Restored(t, state);
      && (r == Err(ErrActivityWindowChanged) <==> state.window != 0 && state.window != t.window)
      && (r == Err(ErrInvalidActivityState) <==>
            || state.window == 0
            || (state.window == t.window && (!DistinctIdentities(state.swaps) ||
                  exists e :: e in state.swaps && Malformed(e, state.latest))))
      && (r.Err? ==> r.error in {ErrActivityWindowChanged, ErrInvalidActivityState})
  {
    forall e | e in state.swaps ensures ValidSwap(e, state.latest) <==> !Malformed(e, state.latest) {
    }
    forall i | 0 <= i < |state.swaps| ensures ValidSwap(state.swaps[i], state.latest) <==> !Malformed(state.swaps[i], state.latest) {
      assert state.swaps[i] in state.swaps;
    }
  }

  lemma {:induction false} OfPoolDistinct(s: seq<SwapTransition>, key: string)
    requires DistinctIdentities(s)
    ensures DistinctIdentities(OfPool(s, key))
  {
    if s != [] {
      var rest := s[..|s| - 1];
      OfPoolDistinct(rest, key);
      OfPoolMembers(rest, key);
      var kept := OfPool(rest, key);
      forall i | 0 <= i < |kept| ensures kept[i].Identity() != s[|s| - 1].Identity() {
        assert kept[i] in rest;
      }
    }
  }

  /** A state that lists the tracker's swaps, each once, in any order. */
  ghost predicate IsSnapshot(t: Tracker, state: ActivityState) {
    && state.window == t.window && state.latest == t.latest
    && DistinctIdentities(state.swaps)
    && forall e :: e in state.swaps <==> e in At(t.swaps, e.Key())
  }

  /** Restoring a snapshot of a reachable tracker succeeds and answers every volume query as the
      tracker did. */
  lemma SnapshotRestores(t: Tracker, fresh': Tracker, state: ActivityState, key: string, atSlot: uint64)
    requires TrackerOk(t) && IsSnapshot(t, state) && fresh'.window == t.window
    ensures Restored(fresh', state).Ok?
    ensures VolumeAt(Restored(fresh', state).value, key, atSlot) == VolumeAt(t, key, atSlot)
  {
    forall i | 0 <= i < |state.swaps| ensures ValidSwap(state.swaps[i], state.latest) {
      assert state.swaps[i] in state.swaps;
    }
    RestoredExactly(fresh', state);
    var r := Restored(fresh', state).value;
    assert ListOk(At(t.swaps, key), key, Cutoff(t.latest, t.window), t.latest);
    assert ListOk(At(r.swaps, key), key, Cutoff(r.latest, r.window), r.latest);
    TurnoverOfSameWindow(At(t.swaps, key), At(r.swaps, key), Cutoff(atSlot, t.window));
  }
}
