/** What a reported volume says about the swaps themselves: which swaps of which pool are counted,
    and what the reported numbers are (dex/activity.go, Volume). */
module ActivityReports {
  import opened Words
  import opened Text
  import opened Dex
  import opened ActivityLists
  import opened ActivitySpec

  /** The sum of a quantity over a list of swaps. */
  function Total(s: seq<SwapTransition>, quantity: SwapTransition -> nat): nat {
    if s == [] then 0 else quantity(s[0]) + Total(s[1..], quantity)
  }

  /** The answer for these moves: nothing when there is none, and otherwise the sums of the amounts of
      either asset, the number of moves and the least and the greatest of their slots, or an overflow
      exactly when one of these numbers does not fit a word. */
  ghost predicate Reports(r: VolumeResult, moves: seq<SwapTransition>) {
    match r
    case Ok(None) => moves == []
    case Ok(Some(v)) =>
      && moves != []
      && v.volumeX == Total(moves, (e: SwapTransition) => e.amountX)
      && v.volumeY == Total(moves, (e: SwapTransition) => e.amountY)
      && v.swapCount == |moves|
      && (forall e :: e in moves ==> v.firstSwapSlot <= e.slot <= v.lastSwapSlot)
      && (exists e :: e in moves && e.slot == v.firstSwapSlot) && (exists e :: e in moves && e.slot == v.lastSwapSlot)
    case Err(error) =>
      && error == ErrVolumeOverflow
      && (Total(moves, (e: SwapTransition) => e.amountX) > MAX_UINT64
          || Total(moves, (e: SwapTransition) => e.amountY) > MAX_UINT64 || |moves| > MAX_UINT64)
  }

  /** The swaps of a list in the window that ends at a slot, each as often as it is listed. */
  ghost predicate InWindow(moves: seq<SwapTransition>, all: seq<SwapTransition>, window: uint64, atSlot: uint64) {
    forall e :: multiset(moves)[e] == if e.slot + window >= atSlot then multiset(all)[e] else 0
  }

  ghost predicate ReportsWindow(r: VolumeResult, all: seq<SwapTransition>, window: uint64, atSlot: uint64) {
    exists moves :: InWindow(moves, all, window, atSlot) && Reports(r, moves)
  }

  predicate OfThePool(e: SwapTransition, network: string, protocol: string, poolId: string) {
    e.network == network && e.protocol == protocol && e.poolId == poolId
  }

  // ----- sums -----

  lemma {:induction false} TotalIsSumX(s: seq<SwapTransition>, quantity: SwapTransition -> nat)
    requires forall e :: quantity(e) == e.amountX
    ensures Total(s, quantity) == SumX(s)
  {
    if s != [] {
      TotalIsSumX(s[1..], quantity);
      assert s == [s[0]] + s[1..];
      SumsSplit([s[0]], s[1..]);
      assert [s[0]][..0] == [];
    }
  }

  lemma {:induction false} TotalIsSumY(s: seq<SwapTransition>, quantity: SwapTransition -> nat)
    requires forall e :: quantity(e) == e.amountY
    ensures Total(s, quantity) == SumY(s)
  {
    if s != [] {
      TotalIsSumY(s[1..], quantity);
      assert s == [s[0]] + s[1..];
      SumsSplit([s[0]], s[1..]);
      assert [s[0]][..0] == [];
    }
  }

  /** The turnover of a slot-sorted list reports its swaps. */
  lemma TurnoverReports(s: seq<SwapTransition>)
    requires SlotSorted(s)
    ensures Reports(TurnoverOf(s), s)
  {
    TotalIsSumX(s, (e: SwapTransition) => e.amountX);
    TotalIsSumY(s, (e: SwapTransition) => e.amountY);
    if s != [] {
      assert s[0] in s && s[|s| - 1] in s;
    }
  }

  // ----- the window -----

  lemma CutoffIsWindow(slot: uint64, window: uint64, atSlot: uint64)
    ensures slot >= Cutoff(atSlot, window) <==> slot + window >= atSlot
  {
  }

  lemma SinceInWindow(all: seq<SwapTransition>, window: uint64, atSlot: uint64)
    ensures InWindow(Since(all, Cutoff(atSlot, window)), all, window, atSlot)
  {
    forall e ensures multiset(Since(all, Cutoff(atSlot, window)))[e] == if e.slot + window >= atSlot then multiset(all)[e] else 0 {
      SinceCounts(all, Cutoff(atSlot, window), e);
      CutoffIsWindow(e.slot, window, atSlot);
    }
  }

  lemma WindowReports(all: seq<SwapTransition>, window: uint64, atSlot: uint64)
    requires SlotSorted(all)
    ensures ReportsWindow(TurnoverOf(Since(all, Cutoff(atSlot, window))), all, window, atSlot)
  {
    SinceInWindow(all, window, atSlot);
    SinceSorted(all, Cutoff(atSlot, window));
    TurnoverReports(Since(all, Cutoff(atSlot, window)));
  }

  // ----- the pool -----

  /** Keys tell pools apart when network and protocol do not contain the separator. */
  lemma PoolKeyIff(network: string, protocol: string, poolId: string, network': string, protocol': string, poolId': string)
    requires ':' !in network && ':' !in protocol && ':' !in network' && ':' !in protocol'
    ensures PoolKey(network, protocol, poolId) == PoolKey(network', protocol', poolId')
       <==> network == network' && protocol == protocol' && poolId == poolId'
  {
    if PoolKey(network, protocol, poolId) == PoolKey(network', protocol', poolId') {
      var tail, tail' := protocol + [':'] + poolId, protocol' + [':'] + poolId';
      assert PoolKey(network, protocol, poolId) == network + [':'] + tail;
      assert PoolKey(network', protocol', poolId') == network' + [':'] + tail';
      JoinInjective(network, tail, network', tail', ':');
      JoinInjective(protocol, poolId, protocol', poolId', ':');
    }
  }

  /** The swaps of one pool in the window. */
  ghost predicate PoolInWindow(moves: seq<SwapTransition>, all: seq<SwapTransition>,
                               network: string, protocol: string, poolId: string, window: uint64, atSlot: uint64) {
    forall e :: multiset(moves)[e] ==
      if OfThePool(e, network, protocol, poolId) && e.slot + window >= atSlot then multiset(all)[e] else 0
  }

  lemma {:induction false} OfPoolCounts(s: seq<SwapTransition>, key: string, e: SwapTransition)
    ensures multiset(OfPool(s, key))[e] == if e.Key() == key then multiset(s)[e] else 0
  {
    if s != [] {
      assert s == s[..|s| - 1] + [s[|s| - 1]];
      OfPoolCounts(s[..|s| - 1], key, e);
    }
  }

  predicate SeparatorFree(e: SwapTransition) { ':' !in e.network && ':' !in e.protocol }

  lemma OfPoolInWindow(all: seq<SwapTransition>, network: string, protocol: string, poolId: string,
                       window: uint64, atSlot: uint64, moves: seq<SwapTransition>)
    requires ':' !in network && ':' !in protocol && forall e :: e in all ==> SeparatorFree(e)
    requires InWindow(moves, OfPool(all, PoolKey(network, protocol, poolId)), window, atSlot)
    ensures PoolInWindow(moves, all, network, protocol, poolId, window, atSlot)
  {
    forall e
      ensures multiset(moves)[e] ==
        if OfThePool(e, network, protocol, poolId) && e.slot + window >= atSlot then multiset(all)[e] else 0
    {
      OfPoolCounts(all, PoolKey(network, protocol, poolId), e);
      if e in all {
        PoolKeyIff(e.network, e.protocol, e.poolId, network, protocol, poolId);
      }
    }
  }

  /** A volume that is not refused reports the retained swaps of the window. */
  ghost predicate VolumeAnswers(r: VolumeResult, t: Tracker, key: string, atSlot: uint64) {
    && (r == Err(ErrOutOfOrderActivity) <==> atSlot < t.latest)
    && (atSlot >= t.latest && SlotSorted(At(t.swaps, key)) ==> ReportsWindow(r, At(t.swaps, key), t.window, atSlot))
  }

  lemma VolumeReports(t: Tracker, key: string, atSlot: uint64)
    ensures VolumeAnswers(VolumeAt(t, key, atSlot), t, key, atSlot)
  {
    if SlotSorted(At(t.swaps, key)) {
      WindowReports(At(t.swaps, key), t.window, atSlot);
    }
  }

  /** The swaps of a pool are reported: those of a list, each as often as it is listed. */
  ghost predicate ReportsPool(r: VolumeResult, all: seq<SwapTransition>,
                              network: string, protocol: string, poolId: string, window: uint64, atSlot: uint64) {
    exists moves :: PoolInWindow(moves, all, network, protocol, poolId, window, atSlot) && Reports(r, moves)
  }

  // ----- swaps without repetitions -----

  /** The swaps of a set that belong to a pool and lie in the window are reported, each once. */
  ghost predicate ReportsOnce(r: VolumeResult, from: iset<SwapTransition>,
                              network: string, protocol: string, poolId: string, window: uint64, atSlot: uint64) {
    exists moves :: Reports(r, moves) && forall e ::
      multiset(moves)[e] == if e in from && OfThePool(e, network, protocol, poolId) && e.slot + window >= atSlot then 1 else 0
  }

  lemma ListReportsOnce(all: seq<SwapTransition>, from: iset<SwapTransition>,
                        network: string, protocol: string, poolId: string, window: uint64, atSlot: uint64)
    requires SlotSorted(all) && DistinctIdentities(all)
    requires forall e :: e in all <==> e in from && e.Key() == PoolKey(network, protocol, poolId)
    requires ':' !in network && ':' !in protocol && forall e :: e in from ==> SeparatorFree(e)
    ensures ReportsOnce(TurnoverOf(Since(all, Cutoff(atSlot, window))), from, network, protocol, poolId, window, atSlot)
  {
    WindowReports(all, window, atSlot);
    var r := TurnoverOf(Since(all, Cutoff(atSlot, window)));
    var moves :| InWindow(moves, all, window, atSlot) && Reports(r, moves);
    forall e
      ensures multiset(moves)[e] ==
        if e in from && OfThePool(e, network, protocol, poolId) && e.slot + window >= atSlot then 1 else 0
    {
      DistinctCounts(all, e);
      if e in from {
        PoolKeyIff(e.network, e.protocol, e.poolId, network, protocol, poolId);
      }
    }
  }
}
