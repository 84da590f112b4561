/** The amounts of a swap transaction: what goes back to the pool, to the trader and to the matcher
    (internal/spectrum/tx.go, createSwapTx). The matcher fee, which the source computes in floating
    point, is an arbitrary word here. */
module SwapTx {
  import opened Words
  import opened Dex
  import opened SpectrumPool
  import SwapMath

  const SWAP_TX_FEE: uint64 := 295_000

  datatype Order = Order(
    base: AssetClass, baseAmount: uint64, minQuoteAmount: uint64, feePerTokenNum: Option<int>, feePerTokenDen: Option<int>)

  datatype Amounts = Amounts(
    poolLovelace: int64, poolUnits: seq<AssetAmount>, rewardLovelace: int64, rewardUnits: seq<AssetAmount>, matcherChange: int64)

  datatype TxError =
    | DivisionByZero
    | BelowMinQuote
    | ExceedsInt64
    | ZeroReward
    | PoolUnderflow
    | MissingFee
    | InvalidSwapUtxo
    | BelowMatcherFee
    | BelowBaseAmount
    | RewardOverflow
    | FeeNotAboveTxFee

  function Uint64ToInt64(amount: uint64): Result<int64, TxError> {
    if amount > MAX_INT64 then Err(ExceedsInt64) else Ok(amount)
  }

  // ----- value -----

  const ADA := AssetClass([], [])

  /** How much of a class a bundle of amounts holds. */
  function Held(bundle: seq<AssetAmount>, cls: AssetClass): nat {
    if bundle == [] then 0
    else Held(bundle[..|bundle| - 1], cls) + if bundle[|bundle| - 1].cls == cls then bundle[|bundle| - 1].amount else 0
  }

  lemma {:induction false} HeldSplit(a: seq<AssetAmount>, b: seq<AssetAmount>, cls: AssetClass)
    ensures Held(a + b, cls) == Held(a, cls) + Held(b, cls)
  {
    if b == [] {
      assert a + b == a;
    } else {
      assert (a + b)[..|a + b| - 1] == a + b[..|b| - 1];
      HeldSplit(a, b[..|b| - 1], cls);
    }
  }

  function Part(x: AssetAmount, cls: AssetClass): nat { if x.cls == cls then x.amount else 0 }

  lemma HeldOne(x: AssetAmount, cls: AssetClass)
    ensures Held([x], cls) == Part(x, cls)
  {
    assert [x][..0] == [];
  }

  lemma HeldNext(a: seq<AssetAmount>, x: AssetAmount, cls: AssetClass)
    ensures Held(a + [x], cls) == Held(a, cls) + Part(x, cls)
  {
    assert (a + [x])[..|a|] == a;
  }

  /** What the pool UTxO holds: its reserves, its NFT and its liquidity tokens. */
  function PoolValue(p: Pool): seq<AssetAmount> { [p.x] + [p.y] + [AssetAmount(p.id, 1)] + [p.lq] }

  /** What the swap UTxO holds: its lovelace, and the base amount when that is a token. */
  function OrderValue(o: Order, coin: uint64): seq<AssetAmount> {
    [AssetAmount(ADA, coin)] + if o.base.IsLovelace() then [] else [AssetAmount(o.base, o.baseAmount)]
  }

  function PoolOutput(t: Amounts): seq<AssetAmount>
    requires t.poolLovelace >= 0
  {
    [AssetAmount(ADA, t.poolLovelace)] + t.poolUnits
  }

  function RewardOutput(t: Amounts): seq<AssetAmount>
    requires t.rewardLovelace >= 0
  {
    [AssetAmount(ADA, t.rewardLovelace)] + t.rewardUnits
  }

  function ChangeAndFee(t: Amounts): seq<AssetAmount>
    requires t.matcherChange >= 0
  {
    [AssetAmount(ADA, t.matcherChange)] + [AssetAmount(ADA, SWAP_TX_FEE)]
  }

  ghost predicate Balanced(p: Pool, o: Order, coin: uint64, t: Amounts)
    requires t.poolLovelace >= 0 && t.rewardLovelace >= 0 && t.matcherChange >= 0
  {
    forall cls :: Held(PoolValue(p), cls) + Held(OrderValue(o, coin), cls)
                  == Held(PoolOutput(t), cls) + Held(RewardOutput(t), cls) + Held(ChangeAndFee(t), cls)
  }

  /** A pool of ada against a token with a policy, and an order for one of the two. */
  predicate AdaPaired(p: Pool, o: Order) {
    && p.x.cls != p.y.cls && (p.x.IsLovelace() || p.y.IsLovelace())
    && (p.x.IsLovelace() || p.x.cls.policyId != []) && (p.y.IsLovelace() || p.y.cls.policyId != [])
    && InPool(p, o.base)
  }

  // ----- conservation -----

  lemma PoolValueHeld(p: Pool, cls: AssetClass)
    ensures Held(PoolValue(p), cls)
            == Part(p.x, cls) + Part(p.y, cls) + Part(AssetAmount(p.id, 1), cls) + Part(p.lq, cls)
  {
    HeldOne(p.x, cls);
    HeldNext([p.x], p.y, cls);
    HeldNext([p.x] + [p.y], AssetAmount(p.id, 1), cls);
    HeldNext([p.x] + [p.y] + [AssetAmount(p.id, 1)], p.lq, cls);
  }

  lemma PoolOutputHeld(t: Amounts, a: AssetAmount, b: AssetAmount, c: AssetAmount, cls: AssetClass)
    requires t.poolLovelace >= 0 && t.poolUnits == [a, b, c]
    ensures Held(PoolOutput(t), cls) == Part(AssetAmount(ADA, t.poolLovelace), cls) + Part(a, cls) + Part(b, cls) + Part(c, cls)
  {
    var ada := [AssetAmount(ADA, t.poolLovelace)];
    assert PoolOutput(t) == ada + [a] + [b] + [c];
    HeldOne(ada[0], cls);
    HeldNext(ada, a, cls);
    HeldNext(ada + [a], b, cls);
    HeldNext(ada + [a] + [b], c, cls);
  }

  lemma OrderValueHeld(o: Order, coin: uint64, cls: AssetClass)
    ensures Held(OrderValue(o, coin), cls)
            == Part(AssetAmount(ADA, coin), cls) + if o.base.IsLovelace() then 0 else Part(AssetAmount(o.base, o.baseAmount), cls)
  {
    var ada := [AssetAmount(ADA, coin)];
    HeldOne(ada[0], cls);
    HeldNext(ada, AssetAmount(o.base, o.baseAmount), cls);
    assert ada + [] == ada;
  }

  lemma RewardHeld(t: Amounts, reward: AssetAmount, cls: AssetClass)
    requires t.rewardLovelace >= 0 && t.rewardUnits == if reward.IsLovelace() then [] else [reward]
    ensures Held(RewardOutput(t), cls)
            == Part(AssetAmount(ADA, t.rewardLovelace), cls) + if reward.IsLovelace() then 0 else Part(reward, cls)
  {
    var ada := [AssetAmount(ADA, t.rewardLovelace)];
    HeldOne(ada[0], cls);
    HeldNext(ada, reward, cls);
    assert ada + [] == ada;
  }

  lemma ChangeHeld(t: Amounts, cls: AssetClass)
    requires t.matcherChange >= 0
    ensures Held(ChangeAndFee(t), cls) == Part(AssetAmount(ADA, t.matcherChange), cls) + Part(AssetAmount(ADA, SWAP_TX_FEE), cls)
  {
    HeldOne(AssetAmount(ADA, t.matcherChange), cls);
    HeldNext([AssetAmount(ADA, t.matcherChange)], AssetAmount(ADA, SWAP_TX_FEE), cls);
  }

  lemma RewardWithinReserve(p: Pool, asset: AssetClass, amount: uint64)
    requires InPool(p, asset) && OutputForInput(p, asset, amount).Some?
    ensures var reward := OutputForInput(p, asset, amount).value;
            reward.cls == OtherAsset(p, asset).cls && reward.amount <= OtherAsset(p, asset).amount
  {
    NoWrap(SwapMath.Output(AssetOf(p, asset).amount, OtherAsset(p, asset).amount, amount, p.feeNum));
  }

  /** How the amounts of an accepted order hang together. */
  predicate Assembled(p: Pool, o: Order, coin: uint64, reward: AssetAmount, t: Amounts) {
    && t.poolLovelace >= 0 && t.rewardLovelace >= 0 && t.matcherChange >= 0
    && reward.cls == OtherAsset(p, o.base).cls && reward.amount <= OtherAsset(p, o.base).amount
    && ReturnToPool(p, AssetAmount(o.base, o.baseAmount), reward) == Ok((t.poolLovelace, t.poolUnits))
    && t.rewardUnits == (if reward.IsLovelace() then [] else [reward])
    && t.rewardLovelace == coin - (t.matcherChange + SWAP_TX_FEE) - (if o.base.IsLovelace() then o.baseAmount else 0)
                           + (if reward.IsLovelace() then reward.amount else 0)
  }

  /** What the sum on the side paid in loses when it does not fit a word. */
  function Lost(p: Pool, o: Order): nat {
    var sum := AssetOf(p, o.base).amount + o.baseAmount;
    sum - sum % WORD
  }

  lemma LostIff(p: Pool, o: Order)
    ensures Lost(p, o) == 0 <==> FitsReserve(p, o.base, o.baseAmount)
  {
  }

  /** Moving amounts between the two sides keeps what both hold, but for what the sum lost. */
  lemma PartsBalance(p: Pool, o: Order, kept: uint64, reward: AssetAmount, lost: nat, cls: AssetClass)
    requires p.x.cls != p.y.cls && InPool(p, o.base)
    requires reward.cls == OtherAsset(p, o.base).cls && reward.amount <= OtherAsset(p, o.base).amount
    requires kept + lost == AssetOf(p, o.base).amount + o.baseAmount
    ensures var next := Moved(p, o.base, kept, reward.amount);
      Part(p.x, cls) + Part(p.y, cls) + Part(AssetAmount(o.base, o.baseAmount), cls)
      == Part(next.x, cls) + Part(next.y, cls) + Part(reward, cls) + if cls == o.base then lost else 0
    ensures var next := Moved(p, o.base, kept, reward.amount); next.x.cls == p.x.cls && next.y.cls == p.y.cls
  {
  }

  lemma ClassBalance(p: Pool, o: Order, coin: uint64, reward: AssetAmount, t: Amounts, cls: AssetClass)
    requires AdaPaired(p, o) && Assembled(p, o, coin, reward, t)
    ensures Held(PoolValue(p), cls) + Held(OrderValue(o, coin), cls)
            == Held(PoolOutput(t), cls) + Held(RewardOutput(t), cls) + Held(ChangeAndFee(t), cls)
               + if cls == o.base then Lost(p, o) else 0
  {
    ReturnedValueIsMoved(p, o.base, o.baseAmount, reward);
    var next := Moved(p, o.base, (AssetOf(p, o.base).amount + o.baseAmount) % WORD, reward.amount);
    PartsBalance(p, o, (AssetOf(p, o.base).amount + o.baseAmount) % WORD, reward, Lost(p, o), cls);
    PoolValueHeld(p, cls);
    PoolOutputHeld(t, AssetAmount(p.id, 1), p.lq, if p.x.IsLovelace() then next.y else next.x, cls);
    OrderValueHeld(o, coin, cls);
    RewardHeld(t, reward, cls);
    ChangeHeld(t, cls);
  }

  /** Value is conserved exactly when the reserve can take the base amount. */
  lemma ValueConservedIff(p: Pool, o: Order, coin: uint64, reward: AssetAmount, t: Amounts)
    requires AdaPaired(p, o) && Assembled(p, o, coin, reward, t)
    requires coin >= t.matcherChange + SWAP_TX_FEE + if o.base.IsLovelace() then o.baseAmount else 0
    ensures Balanced(p, o, coin, t) <==> FitsReserve(p, o.base, o.baseAmount)
    ensures Held(RewardOutput(t), OtherAsset(p, o.base).cls) >= reward.amount
  {
    LostIff(p, o);
    ClassBalance(p, o, coin, reward, t, o.base);
    forall cls ensures Held(PoolValue(p), cls) + Held(OrderValue(o, coin), cls)
                       == Held(PoolOutput(t), cls) + Held(RewardOutput(t), cls) + Held(ChangeAndFee(t), cls)
                          + if cls == o.base then Lost(p, o) else 0 {
      ClassBalance(p, o, coin, reward, t, cls);
    }
    RewardHeld(t, reward, reward.cls);
  }

  // ----- guards -----

  predicate RewardAccepted(reward: AssetAmount, minQuoteAmount: uint64) {
    reward.amount >= minQuoteAmount && reward.amount > 0 && (reward.IsLovelace() || reward.amount <= MAX_INT64)
  }

  predicate UnitsAccepted(units: seq<AssetAmount>) { forall i :: 0 <= i < |units| ==> units[i].amount <= MAX_INT64 }

  function BaseLovelace(o: Order): nat { if o.base.policyId == [] then o.baseAmount else 0 }

  function LovelaceIn(reward: AssetAmount): nat { if reward.IsLovelace() then reward.amount else 0 }

  predicate HasFee(o: Order) { o.feePerTokenNum.Some? && o.feePerTokenDen.Some? && o.feePerTokenDen.value != 0 }

  /** The swap UTxO pays the matcher and, when that is lovelace, the base amount. */
  predicate CoversBase(o: Order, coin: Option<uint64>, matcherFee: uint64) {
    HasFee(o) && coin.Some? && coin.value >= matcherFee + BaseLovelace(o)
  }

  /** The swap UTxO pays the matcher, the base amount and the fee, and the three lovelace amounts
      fit int64. */
  predicate LovelaceAccepted(o: Order, reward: AssetAmount, poolLovelace: uint64, coin: Option<uint64>, matcherFee: uint64) {
    && CoversBase(o, coin, matcherFee) && matcherFee > SWAP_TX_FEE
    && poolLovelace <= MAX_INT64 && matcherFee - SWAP_TX_FEE <= MAX_INT64
    && coin.value - matcherFee - BaseLovelace(o) + LovelaceIn(reward) <= MAX_INT64
  }

  /** Every guard after the output is known. */
  predicate RewardSettles(p: Pool, o: Order, reward: AssetAmount, coin: Option<uint64>, matcherFee: uint64) {
    && RewardAccepted(reward, o.minQuoteAmount)
    && var ret := ReturnToPool(p, AssetAmount(o.base, o.baseAmount), reward);
    && ret.Ok? && UnitsAccepted(ret.value.1) && LovelaceAccepted(o, reward, ret.value.0, coin, matcherFee)
  }

  predicate Accepted(p: Pool, o: Order, coin: Option<uint64>, matcherFee: uint64) {
    var out := OutputForInput(p, o.base, o.baseAmount);
    out.Some? && RewardSettles(p, o, out.value, coin, matcherFee)
  }

  method CheckUnits(units: seq<AssetAmount>) returns (ok: bool)
    ensures ok <==> UnitsAccepted(units)
    ensures ok <==> forall u :: u in units ==> u.amount <= 0x7FFF_FFFF_FFFF_FFFF
  {
    for i := 0 to |units|
      invariant forall j :: 0 <= j < i ==> units[j].amount <= MAX_INT64
    {
      if Uint64ToInt64(units[i].amount).Err? {
        return false;
      }
    }
    return true;
  }

  /** The lovelace of the reward and of the matcher's change. */
  method SettleLovelace(o: Order, reward: AssetAmount, poolLovelace: uint64, swapCoin: Option<uint64>, matcherFee: uint64)
    returns (r: Result<(int64, int64), TxError>)
    ensures r.Ok? <==> LovelaceAccepted(o, reward, poolLovelace, swapCoin, matcherFee)
    ensures r == Err(MissingFee) <==> !HasFee(o)
    ensures r == Err(InvalidSwapUtxo) <==> HasFee(o) && swapCoin.None?
    ensures r == Err(BelowMatcherFee) <==> HasFee(o) && swapCoin.Some? && swapCoin.value < matcherFee
    ensures r == Err(BelowBaseAmount) <==>
      HasFee(o) && swapCoin.Some? && matcherFee <= swapCoin.value < matcherFee + BaseLovelace(o)
    ensures r == Err(RewardOverflow) <==>
      CoversBase(o, swapCoin, matcherFee) && swapCoin.value - matcherFee - BaseLovelace(o) + LovelaceIn(reward) > MAX_UINT64
    ensures r == Err(FeeNotAboveTxFee) <==>
      && CoversBase(o, swapCoin, matcherFee) && swapCoin.value - matcherFee - BaseLovelace(o) + LovelaceIn(reward) <= MAX_UINT64
      && matcherFee <= 295_000
    ensures r.Err? ==>
      r.error in {MissingFee, InvalidSwapUtxo, BelowMatcherFee, BelowBaseAmount, RewardOverflow, FeeNotAboveTxFee, ExceedsInt64}
    ensures r.Ok? ==>
      && r.value.0 == swapCoin.value - matcherFee - BaseLovelace(o) + LovelaceIn(reward) >= 0
      && r.value.1 == matcherFee - SWAP_TX_FEE > 0
  {
    if o.feePerTokenNum.None? || o.feePerTokenDen.None? || o.feePerTokenDen.value == 0 {
      return Err(MissingFee);
    }
    if swapCoin.None? {
      return Err(InvalidSwapUtxo);
    }
    if swapCoin.value < matcherFee {
      return Err(BelowMatcherFee);
    }
    var leftover: uint64 := swapCoin.value - matcherFee;
    if o.base.policyId == [] {
      if leftover < o.baseAmount {
        return Err(BelowBaseAmount);
      }
      leftover := leftover - o.baseAmount;
    }
    var rewardLovelace: uint64 := 0;
    if reward.IsLovelace() {
      rewardLovelace := reward.amount;
    }
    if rewardLovelace > MAX_UINT64 - leftover {
      return Err(RewardOverflow);
    }
    rewardLovelace := rewardLovelace + leftover;
    if matcherFee <= SWAP_TX_FEE {
      return Err(FeeNotAboveTxFee);
    }
    if Uint64ToInt64(poolLovelace).Err? || Uint64ToInt64(rewardLovelace).Err?
       || Uint64ToInt64(matcherFee - SWAP_TX_FEE).Err? {
      return Err(ExceedsInt64);
    }
    return Ok((rewardLovelace, matcherFee - SWAP_TX_FEE));
  }

  /** The amounts once the output is known. */
  method Settle(p: Pool, o: Order, reward: AssetAmount, swapCoin: Option<uint64>, matcherFee: uint64)
    returns (r: Result<Amounts, TxError>)
    ensures r.Ok? <==> RewardSettles(p, o, reward, swapCoin, matcherFee)
    ensures r == Err(BelowMinQuote) <==> reward.amount < o.minQuoteAmount
    ensures r == Err(ZeroReward) <==> reward.amount == 0 == o.minQuoteAmount
    ensures reward.amount >= o.minQuoteAmount && reward.cls.policyId != [] && reward.amount > MAX_INT64 ==> r == Err(ExceedsInt64)
    ensures r == Err(PoolUnderflow) ==> AssetOf(p, reward.cls).amount < reward.amount
    ensures r.Err? ==> r.error != DivisionByZero
    ensures r.Ok? ==> IsSettled(p, o, swapCoin.value, matcherFee, reward, r.value)
  {
    if reward.amount < o.minQuoteAmount {
      return Err(BelowMinQuote);
    }
    var rewardUnits: seq<AssetAmount> := [];
    if !reward.IsLovelace() {
      if Uint64ToInt64(reward.amount).Err? {
        return Err(ExceedsInt64);
      }
      rewardUnits := [reward];
    }
    if reward.amount == 0 {
      return Err(ZeroReward);
    }
    var ret := CalculateReturnToPool(p, AssetAmount(o.base, o.baseAmount), reward);
    if ret.Err? {
      return Err(PoolUnderflow);
    }
    var (poolReturnLovelace, poolReturnUnits) := ret.value;
    var fit := CheckUnits(poolReturnUnits);
    if !fit {
      return Err(ExceedsInt64);
    }
    var lovelace := SettleLovelace(o, reward, poolReturnLovelace, swapCoin, matcherFee);
    if lovelace.Err? {
      return Err(lovelace.error);
    }
    return Ok(Amounts(poolReturnLovelace, poolReturnUnits, lovelace.value.0, rewardUnits, lovelace.value.1));
  }

  predicate IsSettled(p: Pool, o: Order, coin: uint64, matcherFee: uint64, reward: AssetAmount, t: Amounts) {
    && t.poolLovelace >= 0 && t.rewardLovelace >= 0 && 0 < t.matcherChange == matcherFee - SWAP_TX_FEE
    && ReturnToPool(p, AssetAmount(o.base, o.baseAmount), reward) == Ok((t.poolLovelace, t.poolUnits))
    && t.rewardUnits == (if reward.IsLovelace() then [] else [reward])
    && t.rewardLovelace == coin - matcherFee - BaseLovelace(o) + LovelaceIn(reward)
    && coin >= matcherFee + BaseLovelace(o)
    && reward.amount >= o.minQuoteAmount
  }

  /** For a pool of ada the settled amounts balance exactly when the reserve can take the base
      amount, and pay at least the minimum. */
  lemma SettledBalancesIff(p: Pool, o: Order, coin: uint64, matcherFee: uint64, reward: AssetAmount, t: Amounts)
    requires AdaPaired(p, o) && IsSettled(p, o, coin, matcherFee, reward, t)
    requires reward.cls == OtherAsset(p, o.base).cls && reward.amount <= OtherAsset(p, o.base).amount
    ensures Balanced(p, o, coin, t) <==> FitsReserve(p, o.base, o.baseAmount)
    ensures Held(RewardOutput(t), OtherAsset(p, o.base).cls) >= o.minQuoteAmount
  {
    ValueConservedIff(p, o, coin, reward, t);
  }

  /** Either a guard rejects the order, or the trader gets at least the minimum and the transaction
      conserves value, every asset of the two inputs being in the three outputs and the fee, unless
      the pool's reserve and the base amount together overflow a word. */
  method SwapAmounts(p: Pool, o: Order, swapCoin: Option<uint64>, matcherFee: uint64) returns (r: Result<Amounts, TxError>)
    ensures r.Ok? <==> Accepted(p, o, swapCoin, matcherFee)
    ensures r == Err(DivisionByZero) <==> OutputForInput(p, o.base, o.baseAmount).None?
    ensures r == Err(BelowMinQuote) <==>
      var out := OutputForInput(p, o.base, o.baseAmount); out.Some? && out.value.amount < o.minQuoteAmount
    ensures r == Err(ZeroReward) <==>
      var out := OutputForInput(p, o.base, o.baseAmount); out.Some? && out.value.amount == 0 == o.minQuoteAmount
    ensures r.Ok? ==>
      var t := r.value;
      t.poolLovelace >= 0 && t.rewardLovelace >= 0 && 0 < t.matcherChange == matcherFee - SWAP_TX_FEE
    ensures r.Ok? && AdaPaired(p, o) ==>
      var t := r.value;
      && (Balanced(p, o, swapCoin.value, t) <==> FitsReserve(p, o.base, o.baseAmount))
      && Held(RewardOutput(t), OtherAsset(p, o.base).cls) >= o.minQuoteAmount
  {
    var out := OutputForInput(p, o.base, o.baseAmount);
    if out.None? {
      return Err(DivisionByZero);
    }
    r := Settle(p, o, out.value, swapCoin, matcherFee);
    if r.Ok? && AdaPaired(p, o) {
      RewardWithinReserve(p, o.base, o.baseAmount);
      SettledBalancesIff(p, o, swapCoin.value, matcherFee, out.value, r.value);
    }
  }

  // ----- an order that is accepted and does not balance -----

  const TOKEN := AssetClass([1], [1])
  const HALF_WORD: uint64 := 0x8000_0000_0000_0000
  const FULL_POOL := Pool(AssetClass([2], [2]), AssetAmount(TOKEN, HALF_WORD), AssetAmount(ADA, 1997),
                          AssetAmount(AssetClass([3], [3]), 1), 997)
  const FULL_ORDER := Order(TOKEN, HALF_WORD, 1, Some(1), Some(1))

  lemma FullPoolPays()
    ensures OutputForInput(FULL_POOL, TOKEN, HALF_WORD) == Some(AssetAmount(ADA, 997))
  {
    SwapMath.FloorIs(997 * (1997 * HALF_WORD), HALF_WORD * 1000 + HALF_WORD * 997, 997);
  }

  /** A pool whose token reserve is half a word takes another half: the order is accepted, the
      reserve wraps to nothing, and the tokens paid in are in no output. */
  lemma WrappedReserveLosesValue()
    ensures AdaPaired(FULL_POOL, FULL_ORDER) && Accepted(FULL_POOL, FULL_ORDER, Some(10_000_000), 500_000)
    ensures !FitsReserve(FULL_POOL, TOKEN, HALF_WORD)
    ensures ReturnToPool(FULL_POOL, AssetAmount(TOKEN, HALF_WORD), AssetAmount(ADA, 997))
         == Ok((1000, [AssetAmount(FULL_POOL.id, 1), FULL_POOL.lq, AssetAmount(TOKEN, 0)]))
  {
    FullPoolPays();
    var units := [AssetAmount(FULL_POOL.id, 1), FULL_POOL.lq];
    assert units + [AssetAmount(TOKEN, 0)] == [AssetAmount(FULL_POOL.id, 1), FULL_POOL.lq, AssetAmount(TOKEN, 0)];
  }
}
