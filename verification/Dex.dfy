/** Pool states and the swap-shaped transitions inferred from consecutive ones
    (common/types.go, dex/models.go, dex/activity.go). */
module Dex {
  import opened Words

  newtype byte = x: int | 0 <= x < 256

  datatype AssetClass = AssetClass(policyId: seq<byte>, name: seq<byte>) {
    predicate IsLovelace() { policyId == [] && name == [] }
  }

  datatype AssetAmount = AssetAmount(cls: AssetClass, amount: uint64) {
    predicate IsAsset(other: AssetClass) { cls == other }

    predicate IsLovelace() { cls.IsLovelace() }
  }

  datatype PoolState = PoolState(
    poolId: string,
    network: string,
    protocol: string,
    assetX: AssetAmount,
    assetY: AssetAmount,
    feeNum: uint64,
    feeDenom: uint64,
    slot: uint64,
    blockHash: string,
    txHash: string,
    txIndex: uint32,
    fromMempool: bool)
  {
    function Key(): string { PoolKey(network, protocol, poolId) }
  }

  function PoolKey(network: string, protocol: string, poolId: string): string {
    network + ":" + protocol + ":" + poolId
  }

  datatype SwapTransition = SwapTransition(
    poolId: string,
    network: string,
    protocol: string,
    assetX: AssetClass,
    assetY: AssetClass,
    amountX: uint64,
    amountY: uint64,
    inputIsX: bool,
    slot: uint64,
    blockHash: string,
    txHash: string,
    txIndex: uint32)
  {
    function Key(): string { PoolKey(network, protocol, poolId) }

    function Identity(): SwapIdentity { SwapIdentity(slot, txHash, txIndex, network, protocol, poolId) }
  }

  /** What sameSwapIdentity compares. */
  datatype SwapIdentity = SwapIdentity(
    slot: uint64, txHash: string, txIndex: uint32, network: string, protocol: string, poolId: string)

  datatype Inference = Swap(swap: SwapTransition) | NotSwap | Mismatch

  predicate SamePool(previous: PoolState, current: PoolState) {
    && previous.Key() == current.Key()
    && previous.assetX.IsAsset(current.assetX.cls)
    && previous.assetY.IsAsset(current.assetY.cls)
  }

  function InferSwapTransition(previous: Option<PoolState>, current: Option<PoolState>): Inference {
    if previous.None? || current.None? then NotSwap
    else if previous.value.fromMempool || current.value.fromMempool then NotSwap
    else if !SamePool(previous.value, current.value) then Mismatch
    else
      var p, c := previous.value, current.value;
      var xIn := c.assetX.amount > p.assetX.amount;
      var xOut := c.assetX.amount < p.assetX.amount;
      var yIn := c.assetY.amount > p.assetY.amount;
      var yOut := c.assetY.amount < p.assetY.amount;
      if !((xIn && yOut) || (xOut && yIn)) then NotSwap
      else
        Swap(SwapTransition(
          c.poolId, c.network, c.protocol, c.assetX.cls, c.assetY.cls,
          if xIn then c.assetX.amount - p.assetX.amount else p.assetX.amount - c.assetX.amount,
          if xIn then p.assetY.amount - c.assetY.amount else c.assetY.amount - p.assetY.amount,
          xIn, c.slot, c.blockHash, c.txHash, c.txIndex))
  }

  /** The swap moved the reserves of `p` to those of `c`: nothing was lost or invented. */
  predicate Explains(swap: SwapTransition, p: PoolState, c: PoolState) {
    && swap.amountX > 0 && swap.amountY > 0
    && (if swap.inputIsX
        then c.assetX.amount == p.assetX.amount + swap.amountX && p.assetY.amount == c.assetY.amount + swap.amountY
        else p.assetX.amount == c.assetX.amount + swap.amountX && c.assetY.amount == p.assetY.amount + swap.amountY)
    && swap.Identity() == SwapIdentity(c.slot, c.txHash, c.txIndex, c.network, c.protocol, c.poolId)
    && swap.assetX == c.assetX.cls && swap.assetY == c.assetY.cls && swap.blockHash == c.blockHash
  }

  /** A transition is inferred exactly when the two reserves moved in opposite directions,
      and the inferred one is the only one that explains the move. */
  lemma InferenceIsExact(p: PoolState, c: PoolState, swap: SwapTransition)
    requires !p.fromMempool && !c.fromMempool && SamePool(p, c)
    ensures InferSwapTransition(Some(p), Some(c)) == Swap(swap) <==> Explains(swap, p, c)
    ensures InferSwapTransition(Some(p), Some(c)) == NotSwap <==>
            (c.assetX.amount - p.assetX.amount) * (c.assetY.amount - p.assetY.amount) >= 0
  {
    var dx, dy := c.assetX.amount - p.assetX.amount, c.assetY.amount - p.assetY.amount;
    if dx > 0 && dy < 0 {
      assert dx * dy < 0;
    } else if dx < 0 && dy > 0 {
      assert dx * dy < 0;
    } else if dx == 0 || dy == 0 {
      assert dx * dy == 0;
    } else {
      assert dx * dy > 0;
    }
  }

  /** When there is nothing to infer: without two confirmed states there is no swap, and two of them
      mismatch exactly when they differ in pool or assets. */
  lemma InferenceCases(previous: Option<PoolState>, current: Option<PoolState>)
    ensures previous.None? || current.None? || previous.value.fromMempool || current.value.fromMempool ==>
              InferSwapTransition(previous, current) == NotSwap
    ensures previous.Some? && current.Some? && !previous.value.fromMempool && !current.value.fromMempool ==>
              (InferSwapTransition(previous, current) == Mismatch <==>
                 || previous.value.network + ":" + previous.value.protocol + ":" + previous.value.poolId
                    != current.value.network + ":" + current.value.protocol + ":" + current.value.poolId
                 || previous.value.assetX.cls != current.value.assetX.cls
                 || previous.value.assetY.cls != current.value.assetY.cls)
  {
  }
}
