/** The Spectrum pool: swap outputs, the value returned to the pool, and what sequences of swaps
    do to its reserves (internal/spectrum/pool.go). */
module SpectrumPool {
  import opened Words
  import opened Dex
  import opened SwapMath

  const WORD := 0x1_0000_0000_0000_0000

  datatype Pool = Pool(id: AssetClass, x: AssetAmount, y: AssetAmount, lq: AssetAmount, feeNum: uint64)

  const NO_ASSET := AssetAmount(AssetClass([], []), 0)

  function AssetOf(p: Pool, asset: AssetClass): AssetAmount {
    if p.x.IsAsset(asset) then p.x else if p.y.IsAsset(asset) then p.y else NO_ASSET
  }

  function OtherAsset(p: Pool, asset: AssetClass): AssetAmount {
    if p.x.IsAsset(asset) then p.y else p.x
  }

  predicate InPool(p: Pool, asset: AssetClass) { p.x.IsAsset(asset) || p.y.IsAsset(asset) }

  /** OutputForInput. None stands for the division by zero of an empty input reserve and an input
      that counts for nothing. */
  function OutputForInput(p: Pool, inputAsset: AssetClass, inputAmount: uint64): Option<AssetAmount> {
    if !InPool(p, inputAsset) then Some(NO_ASSET)
    else
      var input, output := AssetOf(p, inputAsset), OtherAsset(p, inputAsset);
      if Denominator(input.amount, inputAmount, p.feeNum) == 0 then None
      else Some(AssetAmount(output.cls, Output(input.amount, output.amount, inputAmount, p.feeNum) % WORD))
  }

  /** Taking the low 64 bits loses nothing: the output never exceeds the reserve. */
  lemma OutputIsNotTruncated(p: Pool, inputAsset: AssetClass, inputAmount: uint64)
    requires InPool(p, inputAsset) && AssetOf(p, inputAsset).amount > 0
    ensures OutputForInput(p, inputAsset, inputAmount).Some?
    ensures OutputForInput(p, inputAsset, inputAmount).value.amount
            == Output(AssetOf(p, inputAsset).amount, OtherAsset(p, inputAsset).amount, inputAmount, p.feeNum)
  {
    var x := AssetOf(p, inputAsset).amount;
    assert Denominator(x, inputAmount, p.feeNum) >= x * FEE_DENOM > 0;
  }

  lemma NoWrap(n: nat)
    requires n <= MAX_UINT64
    ensures n % WORD == n
  {
  }

  function Quotient(n: nat, d: nat): nat
    requires d > 0
  {
    n / d
  }

  /** An amount is the floor of numerator over denominator. */
  predicate IsFloor(amount: int, numerator: int, denominator: int) {
    amount * denominator <= numerator < (amount + 1) * denominator
  }

  lemma QuotientIsFloor(n: nat, d: nat)
    requires d > 0
    ensures IsFloor(Quotient(n, d), n, d)
  {
  }

  /** The output is in the other asset, and its amount is the floor of the fee-reduced share of the
      reserve. An asset that is not in the pool gives nothing. */
  lemma OutputIsExact(p: Pool, inputAsset: AssetClass, inputAmount: uint64)
    ensures inputAsset != p.x.cls && inputAsset != p.y.cls ==>
      OutputForInput(p, inputAsset, inputAmount) == Some(AssetAmount(AssetClass([], []), 0))
    ensures inputAsset == p.x.cls || inputAsset == p.y.cls ==>
      var (reserveIn, out) := if inputAsset == p.x.cls then (p.x.amount, p.y) else (p.y.amount, p.x);
      var denominator := reserveIn * 1000 + inputAmount * p.feeNum;
      var r := OutputForInput(p, inputAsset, inputAmount);
      && (r.None? <==> denominator == 0)
      && (r.Some? ==> r.value.cls == out.cls && IsFloor(r.value.amount, out.amount * inputAmount * p.feeNum, denominator))
  {
    if InPool(p, inputAsset) {
      var x, y := AssetOf(p, inputAsset).amount, OtherAsset(p, inputAsset).amount;
      var denominator := Denominator(x, inputAmount, p.feeNum);
      if denominator > 0 {
        NoWrap(Output(x, y, inputAmount, p.feeNum));
        QuotientIsFloor(p.feeNum * (y * inputAmount), denominator);
        ProductsAgree(y, inputAmount, p.feeNum);
      }
    }
  }

  lemma ProductsAgree(a: nat, b: nat, c: nat)
    ensures c * (a * b) == a * b * c == a * (b * c)
  {
  }

  datatype PoolError = Underflow

  /** What goes back to the pool: the lovelace, and the NFT, the liquidity token and the other
      reserve. The addition wraps as uint64 does. */
  function ReturnToPool(p: Pool, input: AssetAmount, reward: AssetAmount): Result<(uint64, seq<AssetAmount>), PoolError> {
    var inAsset := AssetAmount(AssetOf(p, input.cls).cls, (AssetOf(p, input.cls).amount + input.amount) % WORD);
    if AssetOf(p, reward.cls).amount < reward.amount then Err(Underflow)
    else
      var outAsset := AssetAmount(AssetOf(p, reward.cls).cls, AssetOf(p, reward.cls).amount - reward.amount);
      var units := [AssetAmount(p.id, 1), p.lq];
      if inAsset.IsLovelace() then Ok((inAsset.amount, units + [outAsset]))
      else if outAsset.IsLovelace() then Ok((outAsset.amount, units + [inAsset]))
      else Ok((0, units))
  }

  // ----- a pool's life -----

  /** A pool that trades: two different assets, both in reserve, and a fee multiplier of at most
      one. */
  predicate Trades(p: Pool) {
    p.x.cls != p.y.cls && p.x.amount > 0 && p.y.amount > 0 && p.feeNum <= FEE_DENOM
  }

  predicate FitsReserve(p: Pool, inputAsset: AssetClass, amount: uint64) {
    AssetOf(p, inputAsset).amount + amount <= MAX_UINT64
  }

  /** The pool with a new amount on the side paid in and less on the side paid out. */
  function Moved(p: Pool, inputAsset: AssetClass, newInput: uint64, paidOut: nat): Pool
    requires InPool(p, inputAsset) && paidOut <= OtherAsset(p, inputAsset).amount
  {
    if p.x.IsAsset(inputAsset)
    then p.(x := p.x.(amount := newInput), y := p.y.(amount := p.y.amount - paidOut))
    else p.(x := p.x.(amount := p.x.amount - paidOut), y := p.y.(amount := newInput))
  }

  function AfterSwap(p: Pool, inputAsset: AssetClass, amount: uint64): Pool
    requires Trades(p) && InPool(p, inputAsset) && FitsReserve(p, inputAsset, amount)
  {
    OutputIsNotTruncated(p, inputAsset, amount);
    Moved(p, inputAsset, AssetOf(p, inputAsset).amount + amount, OutputForInput(p, inputAsset, amount).value.amount)
  }

  /** The lovelace and the units of a pool with ada on one side. */
  function ValueOf(p: Pool): (uint64, seq<AssetAmount>) {
    if p.x.IsLovelace() then (p.x.amount, [AssetAmount(p.id, 1), p.lq, p.y])
    else (p.y.amount, [AssetAmount(p.id, 1), p.lq, p.x])
  }

  /** A pool of ada against another asset pays from the side opposite to the one paid in. */
  predicate IsPayment(p: Pool, inputAsset: AssetClass, reward: AssetAmount) {
    && p.x.cls != p.y.cls && (p.x.IsLovelace() || p.y.IsLovelace()) && InPool(p, inputAsset)
    && reward.cls == OtherAsset(p, inputAsset).cls && reward.amount <= OtherAsset(p, inputAsset).amount
  }

  /** When one side is ada, the value returned to the pool is exactly the moved pool, with the
      wrapped sum on the side paid in. */
  lemma ReturnedValueIsMoved(p: Pool, inputAsset: AssetClass, amount: uint64, reward: AssetAmount)
    requires IsPayment(p, inputAsset, reward)
    ensures var next := Moved(p, inputAsset, (AssetOf(p, inputAsset).amount + amount) % WORD, reward.amount);
            ReturnToPool(p, AssetAmount(inputAsset, amount), reward) == Ok(ValueOf(next))
  {
    assert AssetOf(p, reward.cls) == OtherAsset(p, inputAsset);
    var next := Moved(p, inputAsset, (AssetOf(p, inputAsset).amount + amount) % WORD, reward.amount);
    var units := [AssetAmount(p.id, 1), p.lq];
    assert units + [next.x] == [AssetAmount(p.id, 1), p.lq, next.x];
    assert units + [next.y] == [AssetAmount(p.id, 1), p.lq, next.y];
  }

  method CalculateReturnToPool(p: Pool, input: AssetAmount, reward: AssetAmount)
    returns (r: Result<(uint64, seq<AssetAmount>), PoolError>)
    ensures r == ReturnToPool(p, input, reward)
    ensures r.Err? <==> AssetOf(p, reward.cls).amount < reward.amount
    ensures IsPayment(p, input.cls, reward) ==>
      r == Ok(ValueOf(Moved(p, input.cls, (AssetOf(p, input.cls).amount + input.amount) % WORD, reward.amount)))
  {
    if IsPayment(p, input.cls, reward) {
      ReturnedValueIsMoved(p, input.cls, input.amount, reward);
    }
    var retAda: uint64 := 0;
    var retUnits := [AssetAmount(p.id, 1), p.lq];
    var inAsset := AssetOf(p, input.cls);
    inAsset := inAsset.(amount := (inAsset.amount + input.amount) % WORD);
    var outAsset := AssetOf(p, reward.cls);
    if outAsset.amount < reward.amount {
      return Err(Underflow);
    }
    outAsset := outAsset.(amount := outAsset.amount - reward.amount);
    if inAsset.IsLovelace() {
      retAda := inAsset.amount;
      retUnits := retUnits + [outAsset];
    } else if outAsset.IsLovelace() {
      retAda := outAsset.amount;
      retUnits := retUnits + [inAsset];
    }
    return Ok((retAda, retUnits));
  }

  lemma ReturnedValueIsNextPool(p: Pool, inputAsset: AssetClass, amount: uint64)
    requires Trades(p) && InPool(p, inputAsset) && FitsReserve(p, inputAsset, amount)
    requires p.x.IsLovelace() || p.y.IsLovelace()
    ensures OutputForInput(p, inputAsset, amount).Some?
    ensures var next := AfterSwap(p, inputAsset, amount);
            ReturnToPool(p, AssetAmount(inputAsset, amount), OutputForInput(p, inputAsset, amount).value) == Ok(ValueOf(next))
  {
    OutputIsNotTruncated(p, inputAsset, amount);
    NoWrap(AssetOf(p, inputAsset).amount + amount);
    ReturnedValueIsMoved(p, inputAsset, amount, OutputForInput(p, inputAsset, amount).value);
  }

  /** A swap pays less than the reserve, keeps the pool trading, and never lowers the product. */
  lemma SwapKeepsPool(p: Pool, inputAsset: AssetClass, amount: uint64)
    requires Trades(p) && InPool(p, inputAsset) && FitsReserve(p, inputAsset, amount)
    ensures OutputForInput(p, inputAsset, amount).value.amount < OtherAsset(p, inputAsset).amount
    ensures Trades(AfterSwap(p, inputAsset, amount))
    ensures var next := AfterSwap(p, inputAsset, amount);
            next.x.amount * next.y.amount >= p.x.amount * p.y.amount
  {
    var x, y := AssetOf(p, inputAsset).amount, OtherAsset(p, inputAsset).amount;
    OutputIsNotTruncated(p, inputAsset, amount);
    OutputBelowReserve(x, y, amount, p.feeNum);
    ProductNeverDecreases(x, y, amount, p.feeNum);
  }

  datatype SwapIn = SwapIn(asset: AssetClass, amount: uint64)

  /** Every swap of the sequence pays in an asset of the pool and does not overflow the reserve. */
  predicate Runs(p: Pool, swaps: seq<SwapIn>)
    requires Trades(p)
    decreases |swaps|
  {
    swaps == [] ||
    (InPool(p, swaps[0].asset) && FitsReserve(p, swaps[0].asset, swaps[0].amount) &&
     (SwapKeepsPool(p, swaps[0].asset, swaps[0].amount);
      Runs(AfterSwap(p, swaps[0].asset, swaps[0].amount), swaps[1..])))
  }

  function After(p: Pool, swaps: seq<SwapIn>): Pool
    requires Trades(p) && Runs(p, swaps)
    decreases |swaps|
  {
    if swaps == [] then p
    else
      SwapKeepsPool(p, swaps[0].asset, swaps[0].amount);
      After(AfterSwap(p, swaps[0].asset, swaps[0].amount), swaps[1..])
  }

  lemma {:induction false} ProductGrows(p: Pool, swaps: seq<SwapIn>)
    requires Trades(p) && Runs(p, swaps)
    ensures Trades(After(p, swaps))
    ensures After(p, swaps).x.amount * After(p, swaps).y.amount >= p.x.amount * p.y.amount
    decreases |swaps|
  {
    if swaps != [] {
      SwapKeepsPool(p, swaps[0].asset, swaps[0].amount);
      ProductGrows(AfterSwap(p, swaps[0].asset, swaps[0].amount), swaps[1..]);
    }
  }

  /** No sequence of swaps, in whatever directions, leaves both reserves lower: what brings one
      reserve back to its start or below cannot have taken any of the other. A round trip never
      profits. */
  lemma NoSequenceProfits(p: Pool, swaps: seq<SwapIn>)
    requires Trades(p) && Runs(p, swaps)
    ensures var q := After(p, swaps);
            && (q.x.amount <= p.x.amount ==> q.y.amount >= p.y.amount)
            && (q.y.amount <= p.y.amount ==> q.x.amount >= p.x.amount)
  {
    ProductGrows(p, swaps);
    var q := After(p, swaps);
    FactorsGrow(p.x.amount, p.y.amount, q.x.amount, q.y.amount);
  }

  lemma FactorsGrow(x: nat, y: nat, x': nat, y': nat)
    requires x > 0 && y > 0 && x' * y' >= x * y
    ensures x' <= x ==> y' >= y
    ensures y' <= y ==> x' >= x
  {
    if x' <= x {
      TimesMonotone(y', x', x);
      CancelFactor(x, y', y);
    }
    if y' <= y {
      TimesMonotone(x', y', y);
      CancelFactor(y, x', x);
    }
  }

  // ----- splitting a swap -----

  function AsNat(amounts: seq<uint64>): seq<nat> { seq(|amounts|, i requires 0 <= i < |amounts| => amounts[i]) }

  lemma SwapStaysInPool(p: Pool, asset: AssetClass, amount: uint64)
    requires Trades(p) && InPool(p, asset) && FitsReserve(p, asset, amount)
    ensures var next := AfterSwap(p, asset, amount);
            && Trades(next) && InPool(next, asset) && AssetOf(next, asset).amount == AssetOf(p, asset).amount + amount
            && OtherAsset(next, asset).amount
               == OtherAsset(p, asset).amount - Output(AssetOf(p, asset).amount, OtherAsset(p, asset).amount, amount, p.feeNum)
            && next.feeNum == p.feeNum
    ensures OutputForInput(p, asset, amount).Some?
    ensures OutputForInput(p, asset, amount).value.amount
            == Output(AssetOf(p, asset).amount, OtherAsset(p, asset).amount, amount, p.feeNum)
  {
    SwapKeepsPool(p, asset, amount);
    OutputIsNotTruncated(p, asset, amount);
  }

  function Paid(p: Pool, asset: AssetClass, amounts: seq<uint64>): nat
    requires Trades(p) && InPool(p, asset)
    requires AssetOf(p, asset).amount + Sum(AsNat(amounts)) <= MAX_UINT64
    decreases |amounts|
  {
    if amounts == [] then 0
    else
      SumTail(amounts);
      SwapStaysInPool(p, asset, amounts[0]);
      OutputForInput(p, asset, amounts[0]).value.amount + Paid(AfterSwap(p, asset, amounts[0]), asset, amounts[1..])
  }

  lemma SumTail(amounts: seq<uint64>)
    requires amounts != []
    ensures Sum(AsNat(amounts)) == amounts[0] + Sum(AsNat(amounts[1..]))
  {
    assert AsNat(amounts)[1..] == AsNat(amounts[1..]);
  }

  lemma {:induction false} PaidIsSplitOutput(p: Pool, asset: AssetClass, amounts: seq<uint64>)
    requires Trades(p) && InPool(p, asset)
    requires AssetOf(p, asset).amount + Sum(AsNat(amounts)) <= MAX_UINT64
    ensures Paid(p, asset, amounts)
            == SplitOutput(AssetOf(p, asset).amount, OtherAsset(p, asset).amount, AsNat(amounts), p.feeNum)
    decreases |amounts|
  {
    if amounts != [] {
      SumTail(amounts);
      SwapStaysInPool(p, asset, amounts[0]);
      assert AsNat(amounts)[1..] == AsNat(amounts[1..]);
      PaidIsSplitOutput(AfterSwap(p, asset, amounts[0]), asset, amounts[1..]);
    }
  }

  /** Swapping a list of amounts one after the other, each against the updated pool, pays at most
      what the single swap of their total pays. */
  lemma SplitNeverPaysMore(p: Pool, asset: AssetClass, amounts: seq<uint64>)
    requires Trades(p) && InPool(p, asset)
    requires AssetOf(p, asset).amount + Sum(AsNat(amounts)) <= MAX_UINT64
    ensures Paid(p, asset, amounts) <= OutputForInput(p, asset, Sum(AsNat(amounts))).value.amount
  {
    PaidIsSplitOutput(p, asset, amounts);
    OutputIsNotTruncated(p, asset, Sum(AsNat(amounts)));
    SplittingNeverPaysMore(AssetOf(p, asset).amount, OtherAsset(p, asset).amount, AsNat(amounts), p.feeNum);
  }

  // ----- the quote of the DEX model -----

  datatype QuoteError = ZeroDenominator | FeeAboveOne | NotInPool | ZeroReserves | ZeroSwapDenominator | OutputOverflow

  /** dex/models.go, Quote, without the floating-point price impact. */
  function Quote(p: PoolState, asset: AssetClass, amountIn: uint64): Result<uint64, QuoteError> {
    if p.feeDenom == 0 then Err(ZeroDenominator)
    else if p.feeNum > p.feeDenom then Err(FeeAboveOne)
    else if !p.assetX.IsAsset(asset) && !p.assetY.IsAsset(asset) then Err(NotInPool)
    else
      var (reserveIn, reserveOut) :=
        if p.assetX.IsAsset(asset) then (p.assetX.amount, p.assetY.amount) else (p.assetY.amount, p.assetX.amount);
      if reserveIn == 0 || reserveOut == 0 then Err(ZeroReserves)
      else if amountIn == 0 then Ok(0)
      else
        var amountInFee := amountIn * p.feeNum;
        var denominator := reserveIn * p.feeDenom + amountInFee;
        if denominator <= 0 then Err(ZeroSwapDenominator)
        else
          var out := Quotient(reserveOut * amountInFee, denominator);
          if out > MAX_UINT64 then Err(OutputOverflow) else Ok(out)
  }

  function PoolOf(p: PoolState): Pool { Pool(AssetClass([], []), p.assetX, p.assetY, NO_ASSET, p.feeNum) }

  /** Quote fails exactly for an invalid fee, a foreign asset or an empty reserve, and with a
      denominator of 1000 it quotes what the Spectrum pool pays. */
  lemma QuoteMatchesPool(p: PoolState, asset: AssetClass, amountIn: uint64)
    ensures Quote(p, asset, amountIn).Err? <==>
            || p.feeDenom == 0 || p.feeNum > p.feeDenom || !InPool(PoolOf(p), asset)
            || p.assetX.amount == 0 || p.assetY.amount == 0
    ensures Quote(p, asset, amountIn).Ok? && p.feeDenom == FEE_DENOM ==>
            OutputForInput(PoolOf(p), asset, amountIn)
            == Some(AssetAmount(OtherAsset(PoolOf(p), asset).cls, Quote(p, asset, amountIn).value))
  {
    if p.feeDenom > 0 && p.feeNum <= p.feeDenom && InPool(PoolOf(p), asset) && p.assetX.amount > 0 && p.assetY.amount > 0 {
      var x, y := AssetOf(PoolOf(p), asset).amount, OtherAsset(PoolOf(p), asset).amount;
      var part := amountIn * p.feeNum;
      TimesPositive(x, p.feeDenom);
      FloorBelowReserve(y, part, x * p.feeDenom + part);
      if p.feeDenom == FEE_DENOM {
        OutputIsNotTruncated(PoolOf(p), asset, amountIn);
        Reorder(p.feeNum, y, amountIn);
        if amountIn == 0 {
          NothingForNothing(x, y, p.feeNum);
        }
      }
    }
  }

  /** Each error names its own check, in the order of the checks. */
  lemma QuoteErrors(p: PoolState, asset: AssetClass, amountIn: uint64)
    ensures var r := Quote(p, asset, amountIn);
      var feeOk := p.feeDenom > 0 && p.feeNum <= p.feeDenom;
      var inPool := asset == p.assetX.cls || asset == p.assetY.cls;
      && (r == Err(ZeroDenominator) <==> p.feeDenom == 0)
      && (r == Err(FeeAboveOne) <==> p.feeNum > p.feeDenom > 0)
      && (r == Err(NotInPool) <==> feeOk && !inPool)
      && (r == Err(ZeroReserves) <==> feeOk && inPool && (p.assetX.amount == 0 || p.assetY.amount == 0))
      && (r.Err? ==> r.error in {ZeroDenominator, FeeAboveOne, NotInPool, ZeroReserves})
  {
    QuoteMatchesPool(p, asset, amountIn);
  }

  /** For any fee an answer is the exact floor of the share, with the pool's own denominator. */
  lemma QuoteIsExact(p: PoolState, asset: AssetClass, amountIn: uint64)
    requires Quote(p, asset, amountIn).Ok?
    ensures var (reserveIn, reserveOut) :=
        if asset == p.assetX.cls then (p.assetX.amount, p.assetY.amount) else (p.assetY.amount, p.assetX.amount);
      IsFloor(Quote(p, asset, amountIn).value, reserveOut * amountIn * p.feeNum,
              reserveIn * p.feeDenom + amountIn * p.feeNum)
    ensures amountIn == 0 ==> Quote(p, asset, amountIn).value == 0
  {
    var x, y := AssetOf(PoolOf(p), asset).amount, OtherAsset(PoolOf(p), asset).amount;
    var part := amountIn * p.feeNum;
    TimesPositive(x, p.feeDenom);
    if amountIn > 0 {
      QuotientIsFloor(y * part, x * p.feeDenom + part);
    }
    ProductsAgree(y, amountIn, p.feeNum);
  }

  lemma TimesPositive(a: nat, b: nat)
    requires a > 0 && b > 0
    ensures a * b > 0
  {
  }

  lemma FloorBelowReserve(y: nat, part: nat, whole: nat)
    requires part <= whole && whole > 0
    ensures (y * part) / whole <= y
  {
    TimesMonotone(y, part, whole);
    FloorAtMost(y * part, whole, y);
  }

  lemma NothingForNothing(x: nat, y: nat, feeNum: nat)
    requires x > 0
    ensures Output(x, y, 0, feeNum) == 0
  {
  }
}
