/** The mempool view of one pool (internal/oracle/mempool.go). */
module Mempool {
  import opened Words
  import opened Dex
  import opened MempoolSpec
  import Text

  method RemoveFirst(order: seq<string>, txHash: string) returns (r: seq<string>)
    ensures r == Text.WithoutFirst(order, txHash)
  {
    for i := 0 to |order|
      invariant forall k :: 0 <= k < i ==> order[k] != txHash
    {
      if order[i] == txHash {
        Text.WithoutFirstSkips(order, txHash, i);
        return order[..i] + order[i + 1..];
      }
    }
    Text.WithoutFirstSkips(order, txHash, |order|);
    return order;
  }

  lemma ShiftByNothing(pending: map<string, Effect>)
    ensures pending == ShiftedAll(pending, 0, 0)
  {
    forall h | h in pending ensures Shifted(pending[h], 0, 0) == pending[h] {
      AddDeltaIsClamp(pending[h].deltaX, 0);
      AddDeltaIsClamp(pending[h].deltaY, 0);
    }
  }

  class MempoolPoolState {
    var confirmedState: Option<PoolState>
    var pendingTxs: map<string, Effect>
    var txOrder: seq<string>

    function View(): Mempool
      reads this
    {
      Mempool(confirmedState, pendingTxs, txOrder)
    }

    ghost predicate Valid()
      reads this
    {
      Lists(View())
    }

    constructor (confirmed: Option<PoolState>)
      ensures Valid() && View() == Run(confirmed, []).pool
    {
      confirmedState := confirmed;
      pendingTxs := map[];
      txOrder := [];
    }

    method AddPendingTx(txHash: string, newState: Option<PoolState>) returns (effect: Option<Effect>)
      requires Valid()
      modifies this
      ensures Valid() && View() == Apply(old(View()), Add(txHash, newState))
      ensures effect.Some? <==> txHash in pendingTxs
      ensures effect.Some? ==> effect.value == pendingTxs[txHash]
    {
      StepLists(View(), Add(txHash, newState));
      if txHash in pendingTxs {
        return Some(pendingTxs[txHash]);
      }
      if newState.None? {
        return None;
      }
      var before, after := PoolReserves(confirmedState), PoolReserves(newState);
      var added := Effect(txHash, ReserveDelta(after.x, before.x), ReserveDelta(after.y, before.y));
      pendingTxs := pendingTxs[txHash := added];
      txOrder := txOrder + [txHash];
      return Some(added);
    }

    method RemovePendingTx(txHash: string)
      requires Valid()
      modifies this
      ensures Valid() && View() == Apply(old(View()), Remove(txHash))
    {
      StepLists(View(), Remove(txHash));
      if txHash !in pendingTxs {
        return;
      }
      pendingTxs := pendingTxs - {txHash};
      txOrder := RemoveFirst(txOrder, txHash);
    }

    method SetConfirmedState(newConfirmed: Option<PoolState>)
      requires Valid()
      modifies this
      ensures Valid() && View() == Apply(old(View()), Confirm(newConfirmed))
    {
      ghost var next := Apply(View(), Confirm(newConfirmed));
      StepLists(View(), Confirm(newConfirmed));
      var before, after := PoolReserves(confirmedState), PoolReserves(newConfirmed);
      confirmedState := newConfirmed;
      if newConfirmed.Some? {
        RemovePendingTx(newConfirmed.value.txHash);
      }
      var shiftX, shiftY := ReserveDelta(before.x, after.x), ReserveDelta(before.y, after.y);
      if shiftX == 0 && shiftY == 0 {
        ShiftByNothing(pendingTxs);
        assert View() == next;
        return;
      }
      Rebase(shiftX, shiftY);
      assert View() == next;
    }

    method Rebase(shiftX: int64, shiftY: int64)
      modifies this`pendingTxs
      ensures pendingTxs == ShiftedAll(old(pendingTxs), shiftX, shiftY)
    {
      ghost var kept := pendingTxs;
      var left := pendingTxs.Keys;
      while left != {}
        invariant left <= kept.Keys && pendingTxs.Keys == kept.Keys
        invariant forall h :: h in kept ==>
          pendingTxs[h] == if h in left then kept[h] else Shifted(kept[h], shiftX, shiftY)
        decreases left
      {
        var h :| h in left;
        pendingTxs := pendingTxs[h := Shifted(pendingTxs[h], shiftX, shiftY)];
        left := left - {h};
      }
    }

    /** The pending effects in the order of their arrival. */
    method GetPendingTxs() returns (effects: seq<Effect>)
      requires Valid()
      ensures |effects| == |txOrder| && forall i :: 0 <= i < |txOrder| ==> effects[i].txHash == txOrder[i]
      ensures forall e: Effect :: e in effects <==> e.txHash in pendingTxs && pendingTxs[e.txHash] == e
    {
      effects := [];
      for i := 0 to |txOrder|
        invariant |effects| == i
        invariant forall k :: 0 <= k < i ==> effects[k] == pendingTxs[txOrder[k]]
      {
        effects := effects + [pendingTxs[txOrder[i]]];
      }
      forall e: Effect | e.txHash in pendingTxs && pendingTxs[e.txHash] == e ensures e in effects {
        var k :| 0 <= k < |txOrder| && txOrder[k] == e.txHash;
        assert effects[k] == e;
      }
    }
  }
}
