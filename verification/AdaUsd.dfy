/** Qualification of pools as ADA/USD observations and the agreement checks around their
    median (price/ada_usd.go). Ratios are exact, as in the source. */
module AdaUsd {
  import opened Words
  import opened Dex
  import Text
  import opened SwapMath
  import opened WeightedMedian

  const USD_MICROS_DECIMALS: nat := 6

  type uint8 = x: int | 0 <= x < 256

  datatype Stablecoin = Stablecoin(symbol: string, asset: AssetClass, decimals: uint8)

  datatype Config = Config(
    stablecoins: seq<Stablecoin>, minAdaReserve: uint64, minStableUsd: uint64, minObservations: int,
    minStablecoins: int, maxPoolShare: real, maxDivergence: real, includeMempool: bool)
  {
    predicate Valid() {
      && stablecoins != [] && minObservations >= 1 && minStablecoins >= 1
      && 0.0 < maxPoolShare <= 1.0 && maxDivergence >= 0.0
    }
  }

  // ----- decimals -----

  lemma {:induction false} Pow10Grows(m: nat, n: nat)
    requires m <= n
    ensures Text.Pow10(m) <= Text.Pow10(n)
  {
    if m < n {
      Pow10Grows(m, n - 1);
    }
  }

  lemma TenTimes(a: nat, b: nat)
    ensures 10 * (a * b) == (10 * a) * b
  {
  }

  lemma {:induction false} Pow10Adds(m: nat, n: nat)
    ensures Text.Pow10(m + n) == Text.Pow10(m) * Text.Pow10(n)
  {
    if m > 0 {
      Pow10Adds(m - 1, n);
      TenTimes(Text.Pow10(m - 1), Text.Pow10(n));
    }
  }

  /** pow10Uint: the exact power when it fits a word, and 0 otherwise. */
  method Pow10Uint(power: uint8) returns (value: uint64)
    ensures value == if Text.Pow10(power) <= MAX_UINT64 then Text.Pow10(power) else 0
  {
    value := 1;
    var i: nat := 0;
    while i < power
      invariant i <= power && value == Text.Pow10(i)
    {
      if value > MAX_UINT64 / 10 {
        Pow10Grows(i + 1, power);
        return 0;
      }
      value := value * 10;
      i := i + 1;
    }
  }

  lemma Pow10Of19()
    ensures Text.Pow10(19) <= MAX_UINT64 < Text.Pow10(20)
  {
    Text.Pow10Of20();
    assert Text.Pow10(20) == 10 * Text.Pow10(19);
  }

  lemma PowerFits(n: nat)
    ensures Text.Pow10(n) <= MAX_UINT64 <==> n < 20
  {
    Pow10Of19();
    if n < 20 {
      Pow10Grows(n, 19);
    } else {
      Pow10Grows(20, n);
    }
  }

  /** Integer division of a word, which is again a word. */
  function Share(amount: uint64, divisor: nat): uint64
    requires divisor > 0
  {
    FloorAtMost(amount, divisor, amount);
    FloorAtLeast(amount, divisor, 0);
    amount / divisor
  }

  /** The amount in millionths of a dollar. */
  function Micros(amount: uint64, decimals: uint8): Option<uint64> {
    if decimals <= USD_MICROS_DECIMALS then
      var micros := amount * Text.Pow10(USD_MICROS_DECIMALS - decimals);
      if micros > MAX_UINT64 then None else Some(micros)
    else if decimals >= 26 then None
    else
      Some(Share(amount, Text.Pow10(decimals - USD_MICROS_DECIMALS)))
  }

  /** v micros are the most that an amount of base units covers. */
  predicate IsMicros(v: nat, amount: nat, decimals: nat) {
    v * Text.Pow10(decimals) <= amount * Text.Pow10(USD_MICROS_DECIMALS) < (v + 1) * Text.Pow10(decimals)
  }

  lemma ScaledUp(a: nat, f: nat, d: nat, s: nat)
    requires d > 0 && s == f * d
    ensures (a * f) * d == a * s < (a * f + 1) * d
  {
  }

  lemma ScaledDown(a: nat, d: nat, s: nat, p: nat)
    requires d > 0 && s > 0 && p == d * s
    ensures (a / d) * p <= a * s < (a / d + 1) * p
  {
    var v, r := a / d, a % d;
    assert a == d * v + r;
    assert a * s == v * p + r * s by {
      assert (d * v + r) * s == d * v * s + r * s;
    }
    assert (d - r) * s > 0;
    assert (v + 1) * p == v * p + d * s;
  }

  lemma Unscaled(a: nat, b: nat, d: nat)
    requires d > 0
    ensures a * d < b * d <==> a < b
  {
    if a < b {
      assert (b - a) * d > 0;
    } else {
      assert (a - b) * d >= 0;
    }
  }

  lemma MicrosOfFew(amount: uint64, decimals: uint8, scale: nat, d: nat)
    requires decimals <= USD_MICROS_DECIMALS && scale == Text.Pow10(USD_MICROS_DECIMALS) && d == Text.Pow10(decimals)
    ensures match Micros(amount, decimals)
            case Some(v) => v * d <= amount * scale < (v + 1) * d && amount * scale <= MAX_UINT64 * d
            case None => amount * scale > MAX_UINT64 * d
  {
    var f := Text.Pow10(USD_MICROS_DECIMALS - decimals);
    Pow10Adds(USD_MICROS_DECIMALS - decimals, decimals);
    ScaledUp(amount, f, d, scale);
    Unscaled(MAX_UINT64, amount * f, d);
  }

  lemma MicrosOfMany(amount: uint64, decimals: uint8, scale: nat, d: nat)
    requires decimals > USD_MICROS_DECIMALS && scale == Text.Pow10(USD_MICROS_DECIMALS) && d == Text.Pow10(decimals)
    ensures amount * scale <= MAX_UINT64 * d
    ensures match Micros(amount, decimals)
            case Some(v) => decimals < 26 && v * d <= amount * scale < (v + 1) * d
            case None => decimals >= 26
  {
    var f := Text.Pow10(decimals - USD_MICROS_DECIMALS);
    Pow10Adds(decimals - USD_MICROS_DECIMALS, USD_MICROS_DECIMALS);
    ScaledDown(amount, f, scale, d);
    Pow10Grows(USD_MICROS_DECIMALS, decimals);
    ProductsOrdered(amount, MAX_UINT64, scale, d);
  }

  /** Normalization is the exact floor. It fails only for a scale beyond a word (26 decimals or
      more) or a value beyond a word. */
  lemma MicrosIsFloor(amount: uint64, decimals: uint8)
    ensures Micros(amount, decimals).Some? ==> IsMicros(Micros(amount, decimals).value, amount, decimals)
    ensures Micros(amount, decimals).None? <==> (decimals >= 26 ||
            amount * Text.Pow10(USD_MICROS_DECIMALS) > MAX_UINT64 * Text.Pow10(decimals))
  {
    if decimals <= USD_MICROS_DECIMALS {
      MicrosOfFew(amount, decimals, Text.Pow10(USD_MICROS_DECIMALS), Text.Pow10(decimals));
    } else {
      MicrosOfMany(amount, decimals, Text.Pow10(USD_MICROS_DECIMALS), Text.Pow10(decimals));
    }
  }

  lemma FloorIsUnique(v: nat, w: nat, n: nat, p: nat)
    requires p > 0 && v * p <= n < (v + 1) * p && w * p <= n < (w + 1) * p
    ensures v == w
  {
    Unscaled(v, w + 1, p);
    Unscaled(w, v + 1, p);
  }

  /** Below 26 decimals the normalized amount is the only word that is the floor. */
  lemma MicrosIff(amount: uint64, decimals: uint8, v: uint64)
    requires decimals < 26
    ensures Micros(amount, decimals) == Some(v) <==> IsMicros(v, amount, decimals)
  {
    var d, scale := Text.Pow10(decimals), Text.Pow10(USD_MICROS_DECIMALS);
    MicrosIsFloor(amount, decimals);
    if IsMicros(v, amount, decimals) {
      if decimals <= USD_MICROS_DECIMALS {
        var f := Text.Pow10(USD_MICROS_DECIMALS - decimals);
        Pow10Adds(USD_MICROS_DECIMALS - decimals, decimals);
        ScaledUp(amount, f, d, scale);
        FloorIsUnique(v, amount * f, amount * scale, d);
      } else {
        MicrosOfMany(amount, decimals, scale, d);
        FloorIsUnique(v, Micros(amount, decimals).value, amount * scale, d);
      }
    }
  }

  lemma ProductsOrdered(a: nat, b: nat, c: nat, d: nat)
    requires a <= b && c <= d
    ensures a * c <= b * d
  {
    assert (b - a) * c >= 0 && b * (d - c) >= 0;
  }

  lemma FactorFits(a: nat, f: nat, limit: nat)
    requires f > 0
    ensures a > limit / f <==> a * f > limit
  {
    var q := limit / f;
    if a > q {
      assert limit < f * (q + 1);
      assert (a - (q + 1)) * f >= 0;
    } else {
      assert f * q <= limit;
      assert (q - a) * f >= 0;
    }
  }

  /** normalizeToMicros. */
  method NormalizeToMicros(amount: uint64, decimals: uint8) returns (r: Option<uint64>)
    ensures r == Micros(amount, decimals)
  {
    if decimals == USD_MICROS_DECIMALS {
      assert Text.Pow10(0) == 1;
      return Some(amount);
    } else if decimals < USD_MICROS_DECIMALS {
      var multiplier := Pow10Uint(USD_MICROS_DECIMALS - decimals);
      PowerFits(USD_MICROS_DECIMALS - decimals);
      FactorFits(amount, multiplier, MAX_UINT64);
      if multiplier == 0 || amount > MAX_UINT64 / multiplier {
        return None;
      }
      return Some(amount * multiplier);
    } else {
      var divisor := Pow10Uint(decimals - USD_MICROS_DECIMALS);
      PowerFits(decimals - USD_MICROS_DECIMALS);
      if divisor == 0 {
        return None;
      }
      return Some(Share(amount, divisor));
    }
  }

  // ----- one pool -----

  function FirstMatch(coins: seq<Stablecoin>, asset: AssetClass): Option<Stablecoin> {
    if coins == [] then None
    else if coins[0].asset == asset then Some(coins[0])
    else FirstMatch(coins[1..], asset)
  }

  /** The ADA side and the other side of a pool that has an ADA side. */
  function Sides(pool: PoolState): Option<(AssetAmount, AssetAmount)> {
    if pool.assetX.IsLovelace() then Some((pool.assetX, pool.assetY))
    else if pool.assetY.IsLovelace() then Some((pool.assetY, pool.assetX))
    else None
  }

  predicate Qualifies(ada: AssetAmount, stable: AssetAmount, coin: Stablecoin, config: Config) {
    && coin.symbol != "" && ada.amount > 0 && stable.amount > 0 && ada.amount >= config.minAdaReserve
    && Micros(stable.amount, coin.decimals).Some?
    && Micros(stable.amount, coin.decimals).value >= config.minStableUsd
  }

  /** An amount of base units in whole units. */
  function Whole(amount: uint64, scale: nat): real
    requires scale > 0
  {
    amount as real / scale as real
  }

  function ScaledPrice(ada: uint64, adaScale: nat, stable: uint64, stableScale: nat): real
    requires ada > 0 && stableScale > 0
  {
    (stable as real * adaScale as real) / (ada as real * stableScale as real)
  }

  function Price(ada: uint64, stable: uint64, decimals: uint8): real
    requires ada > 0
  {
    ScaledPrice(ada, Text.Pow10(USD_MICROS_DECIMALS), stable, Text.Pow10(decimals))
  }

  /** The observation a pool qualifies for, if any. */
  function Observed(pool: PoolState, config: Config): Option<PoolObservation> {
    match Sides(pool)
    case None => None
    case Some((ada, stable)) =>
      match FirstMatch(config.stablecoins, stable.cls)
      case None => None
      case Some(coin) =>
        if !Qualifies(ada, stable, coin, config) then None
        else
          Some(PoolObservation(pool.poolId, pool.protocol, coin.symbol, Micros(stable.amount, coin.decimals).value,
                               Some(Price(ada.amount, stable.amount, coin.decimals))))
  }

  /** The price is positive and exact: the whole ADA of the reserve are worth its whole stable
      coins. */
  lemma PriceIsExact(ada: uint64, adaScale: nat, stable: uint64, stableScale: nat)
    requires ada > 0 && stable > 0 && adaScale > 0 && stableScale > 0
    ensures ScaledPrice(ada, adaScale, stable, stableScale) > 0.0
    ensures ScaledPrice(ada, adaScale, stable, stableScale) * Whole(ada, adaScale) == Whole(stable, stableScale)
  {
    ExactQuotient(stable as real, ada as real, adaScale as real, stableScale as real);
  }

  lemma ExactQuotient(s: real, a: real, m: real, d: real)
    requires s > 0.0 && a > 0.0 && m > 0.0 && d > 0.0
    ensures a * d > 0.0 && (s * m) / (a * d) > 0.0
    ensures ((s * m) / (a * d)) * (a / m) == s / d
  {
    assert a * d > 0.0 && s * m > 0.0;
    var p := (s * m) / (a * d);
    assert p * (a * d) == s * m;
    assert p * a * d == s * m;
    assert p * a == s * m / d;
  }

  // ----- what a pool observes, from its state -----

  /** The first configured coin with this asset. */
  predicate IsFirstCoin(coins: seq<Stablecoin>, asset: AssetClass, i: int) {
    0 <= i < |coins| && coins[i].asset == asset && forall j :: 0 <= j < i ==> coins[j].asset != asset
  }

  lemma {:induction false} FirstMatchIs(coins: seq<Stablecoin>, asset: AssetClass)
    ensures match FirstMatch(coins, asset)
            case Some(coin) => exists i :: IsFirstCoin(coins, asset, i) && coins[i] == coin
            case None => forall c :: c in coins ==> c.asset != asset
  {
    if coins != [] && coins[0].asset != asset {
      FirstMatchIs(coins[1..], asset);
      if FirstMatch(coins[1..], asset).Some? {
        var i :| IsFirstCoin(coins[1..], asset, i) && coins[1..][i] == FirstMatch(coins[1..], asset).value;
        assert IsFirstCoin(coins, asset, i + 1);
      }
    } else if coins != [] {
      assert IsFirstCoin(coins, asset, 0);
    }
  }

  /** At the price the whole ada of a reserve is worth the whole coins of the other. */
  predicate PricesReserves(price: real, ada: uint64, adaScale: nat, stable: uint64, stableScale: nat)
    requires adaScale > 0 && stableScale > 0
  {
    price * (ada as real / adaScale as real) == stable as real / stableScale as real
  }

  /** The pool holds enough of ada, and of a configured coin with a symbol. */
  ghost predicate ObservesCoin(ada: AssetAmount, stable: AssetAmount, coin: Stablecoin, config: Config, o: PoolObservation) {
    && coin.symbol != "" && coin.decimals < 26
    && ada.amount > 0 && stable.amount > 0 && ada.amount >= config.minAdaReserve && o.stableMicros >= config.minStableUsd
    && o.stablecoin == coin.symbol && IsMicros(o.stableMicros, stable.amount, coin.decimals)
    && o.price.Some?
    && PricesReserves(o.price.value, ada.amount, Text.Pow10(6), stable.amount, Text.Pow10(coin.decimals))
  }

  ghost predicate Observes(pool: PoolState, config: Config, o: PoolObservation) {
    var (ada, stable) := if pool.assetX.cls.IsLovelace() then (pool.assetX, pool.assetY) else (pool.assetY, pool.assetX);
    && ada.cls.IsLovelace() && o.poolId == pool.poolId && o.protocol == pool.protocol
    && exists i :: IsFirstCoin(config.stablecoins, stable.cls, i) && ObservesCoin(ada, stable, config.stablecoins[i], config, o)
  }

  lemma PriceIff(ada: uint64, adaScale: nat, stable: uint64, stableScale: nat, price: real)
    requires ada > 0 && stable > 0 && adaScale > 0 && stableScale > 0
    ensures price == ScaledPrice(ada, adaScale, stable, stableScale)
       <==> PricesReserves(price, ada, adaScale, stable, stableScale)
  {
    PriceIsExact(ada, adaScale, stable, stableScale);
    EqualFactors(price, ScaledPrice(ada, adaScale, stable, stableScale), ada as real / adaScale as real);
  }

  lemma EqualFactors(p: real, q: real, w: real)
    requires w > 0.0
    ensures p * w == q * w <==> p == q
  {
    assert p * w == q * w ==> (p - q) * w == 0.0;
  }

  /** With both reserves present, weight and price are determined. */
  lemma WeightAndPrice(ada: uint64, stable: uint64, decimals: uint8, micros: uint64, price: real)
    requires ada > 0 && stable > 0
    ensures decimals < 26 && IsMicros(micros, stable, decimals) <==> Micros(stable, decimals) == Some(micros)
    ensures PricesReserves(price, ada, Text.Pow10(6), stable, Text.Pow10(decimals)) <==> price == Price(ada, stable, decimals)
  {
    PriceIff(ada, Text.Pow10(6), stable, Text.Pow10(decimals), price);
    MicrosIsFloor(stable, decimals);
    if decimals < 26 {
      MicrosIff(stable, decimals, micros);
    }
  }

  lemma ObservesCoinIff(pool: PoolState, ada: AssetAmount, stable: AssetAmount, coin: Stablecoin, config: Config,
                        o: PoolObservation)
    ensures (o.poolId == pool.poolId && o.protocol == pool.protocol && ObservesCoin(ada, stable, coin, config, o)) <==>
            (Qualifies(ada, stable, coin, config) &&
             o == PoolObservation(pool.poolId, pool.protocol, coin.symbol, Micros(stable.amount, coin.decimals).value,
                                  Some(Price(ada.amount, stable.amount, coin.decimals))))
  {
    if ada.amount > 0 && stable.amount > 0 && o.price.Some? {
      WeightAndPrice(ada.amount, stable.amount, coin.decimals, o.stableMicros, o.price.value);
    }
  }

  lemma FirstCoinIsUnique(coins: seq<Stablecoin>, asset: AssetClass, i: int, j: int)
    requires IsFirstCoin(coins, asset, i) && IsFirstCoin(coins, asset, j)
    ensures i == j
  {
  }

  /** A pool is observed exactly as its state says. */
  lemma ObservedIff(pool: PoolState, config: Config, o: PoolObservation)
    ensures Observed(pool, config) == Some(o) <==> Observes(pool, config, o)
  {
    var sides := Sides(pool);
    if sides.Some? {
      var (ada, stable) := sides.value;
      FirstMatchIs(config.stablecoins, stable.cls);
      if i :| IsFirstCoin(config.stablecoins, stable.cls, i) {
        assert config.stablecoins[i] in config.stablecoins;
        forall j | IsFirstCoin(config.stablecoins, stable.cls, j) ensures j == i {
          FirstCoinIsUnique(config.stablecoins, stable.cls, i, j);
        }
        ObservesCoinIff(pool, ada, stable, config.stablecoins[i], config, o);
      }
    }
  }

  /** What is observed carries a positive price, so only the checks on weight can still fail. */
  lemma ObservedIsPriced(pool: PoolState, config: Config)
    requires Observed(pool, config).Some?
    ensures Priced([Observed(pool, config).value])
  {
    var (ada, stable) := Sides(pool).value;
    var coin := FirstMatch(config.stablecoins, stable.cls).value;
    PriceIsExact(ada.amount, Text.Pow10(USD_MICROS_DECIMALS), stable.amount, Text.Pow10(coin.decimals));
  }

  method ObservationFromPool(pool: PoolState, config: Config) returns (r: Option<PoolObservation>)
    ensures r == Observed(pool, config)
    ensures forall o :: r == Some(o) <==> Observes(pool, config, o)
  {
    forall o {
      ObservedIff(pool, config, o);
    }
    var ada, stable;
    if pool.assetX.IsLovelace() {
      ada, stable := pool.assetX, pool.assetY;
    } else if pool.assetY.IsLovelace() {
      ada, stable := pool.assetY, pool.assetX;
    } else {
      return None;
    }
    var stablecoin := Stablecoin("", stable.cls, 0);
    var i := 0;
    while i < |config.stablecoins|
      invariant i <= |config.stablecoins| && stablecoin == Stablecoin("", stable.cls, 0)
      invariant FirstMatch(config.stablecoins, stable.cls) == FirstMatch(config.stablecoins[i..], stable.cls)
    {
      if stable.IsAsset(config.stablecoins[i].asset) {
        stablecoin := config.stablecoins[i];
        break;
      }
      i := i + 1;
    }
    if stablecoin.symbol == "" || ada.amount == 0 || stable.amount == 0 || ada.amount < config.minAdaReserve {
      return None;
    }
    var micros := NormalizeToMicros(stable.amount, stablecoin.decimals);
    if micros.None? || micros.value < config.minStableUsd {
      return None;
    }
    return Some(PoolObservation(pool.poolId, pool.protocol, stablecoin.symbol, micros.value,
                                Some(Price(ada.amount, stable.amount, stablecoin.decimals))));
  }

  // ----- the latest state of each pool -----

  function PoolName(protocol: string, poolId: string): string { protocol + ":" + poolId }

  predicate Eligible(pool: Option<PoolState>, includeMempool: bool) {
    pool.Some? && (includeMempool || !pool.value.fromMempool)
  }

  predicate Newer(p: PoolState, q: PoolState) {
    || p.slot > q.slot
    || (p.slot == q.slot && p.txIndex > q.txIndex)
    || (p.slot == q.slot && p.txIndex == q.txIndex && Text.LexLess(q.txHash, p.txHash))
  }

  ghost predicate NoneNewer(pools: seq<Option<PoolState>>, includeMempool: bool, latest: map<string, PoolState>) {
    forall p :: p in pools && Eligible(p, includeMempool) ==>
      var k := PoolName(p.value.protocol, p.value.poolId);
      k in latest && !Newer(p.value, latest[k])
  }

  ghost predicate AllDelivered(pools: seq<Option<PoolState>>, includeMempool: bool, latest: map<string, PoolState>) {
    forall k :: k in latest ==>
      && Some(latest[k]) in pools && Eligible(Some(latest[k]), includeMempool)
      && PoolName(latest[k].protocol, latest[k].poolId) == k
  }

  /** The newest eligible state of each pool, by slot, then transaction index, then hash. */
  ghost predicate IsLatest(pools: seq<Option<PoolState>>, includeMempool: bool, latest: map<string, PoolState>) {
    AllDelivered(pools, includeMempool, latest) && NoneNewer(pools, includeMempool, latest)
  }

  lemma NewerThanNewest(p: PoolState, q: PoolState, r: PoolState)
    requires Newer(p, q) && !Newer(r, q)
    ensures !Newer(r, p)
  {
    if r.slot == p.slot == q.slot && r.txIndex == p.txIndex == q.txIndex {
      Text.LexAsymmetric(q.txHash, p.txHash);
      Text.LexTotal(q.txHash, r.txHash);
      if Text.LexLess(r.txHash, q.txHash) {
        Text.LexTransitive(r.txHash, q.txHash, p.txHash);
        Text.LexAsymmetric(r.txHash, p.txHash);
      }
    }
  }

  lemma NeverNewerThanItself(p: PoolState)
    ensures !Newer(p, p)
  {
    Text.LexTotal(p.txHash, p.txHash);
    if Text.LexLess(p.txHash, p.txHash) {
      Text.LexAsymmetric(p.txHash, p.txHash);
    }
  }

  lemma Replaced(pools: seq<Option<PoolState>>, includeMempool: bool, latest: map<string, PoolState>, p: PoolState)
    requires IsLatest(pools, includeMempool, latest) && Eligible(Some(p), includeMempool)
    requires var k := PoolName(p.protocol, p.poolId); k in latest ==> Newer(p, latest[k])
    ensures IsLatest(pools + [Some(p)], includeMempool, latest[PoolName(p.protocol, p.poolId) := p])
  {
    var k := PoolName(p.protocol, p.poolId);
    var next := latest[k := p];
    forall q | q in pools + [Some(p)] && Eligible(q, includeMempool)
      ensures var n := PoolName(q.value.protocol, q.value.poolId); n in next && !Newer(q.value, next[n])
    {
      NeverNewerThanItself(p);
      if q in pools && PoolName(q.value.protocol, q.value.poolId) == k {
        NewerThanNewest(p, latest[k], q.value);
      }
    }
    assert Some(p) in pools + [Some(p)];
  }

  method LatestPools(pools: seq<Option<PoolState>>, includeMempool: bool) returns (latest: map<string, PoolState>)
    ensures IsLatest(pools, includeMempool, latest)
  {
    latest := map[];
    var i := 0;
    while i < |pools|
      invariant i <= |pools| && IsLatest(pools[..i], includeMempool, latest)
    {
      assert pools[..i + 1] == pools[..i] + [pools[i]];
      if Eligible(pools[i], includeMempool) {
        var pool := pools[i].value;
        var key := PoolName(pool.protocol, pool.poolId);
        if key !in latest || Newer(pool, latest[key]) {
          Replaced(pools[..i], includeMempool, latest, pool);
          latest := latest[key := pool];
        }
      }
      i := i + 1;
    }
    assert pools[..i] == pools;
  }

  // ----- all pools -----

  /** Pools are listed by stable coin, then protocol, then id. */
  predicate Precedes(a: PoolObservation, b: PoolObservation) {
    if a.stablecoin != b.stablecoin then Text.LexLess(a.stablecoin, b.stablecoin)
    else if a.protocol != b.protocol then Text.LexLess(a.protocol, b.protocol)
    else Text.LexLess(a.poolId, b.poolId)
  }

  predicate Listed(s: seq<PoolObservation>) {
    forall i, j :: 0 <= i < j < |s| ==> Precedes(s[i], s[j])
  }

  function NameOf(o: PoolObservation): string { PoolName(o.protocol, o.poolId) }

  lemma PrecedesTotal(a: PoolObservation, b: PoolObservation)
    ensures NameOf(a) != NameOf(b) ==> Precedes(a, b) || Precedes(b, a)
    ensures Precedes(a, b) ==> !Precedes(b, a) && a != b
  {
    Text.LexTotal(a.stablecoin, b.stablecoin);
    Text.LexTotal(a.protocol, b.protocol);
    Text.LexTotal(a.poolId, b.poolId);
    forall x, y | Text.LexLess(x, y) ensures !Text.LexLess(y, x) && x != y {
      Text.LexAsymmetric(x, y);
    }
  }

  lemma PrecedesTransitive(a: PoolObservation, b: PoolObservation, c: PoolObservation)
    requires Precedes(a, b) && Precedes(b, c)
    ensures Precedes(a, c)
  {
    if a.stablecoin == b.stablecoin == c.stablecoin {
      if a.protocol == b.protocol == c.protocol {
        Text.LexTransitive(a.poolId, b.poolId, c.poolId);
      } else if a.protocol != b.protocol && b.protocol != c.protocol {
        Text.LexTransitive(a.protocol, b.protocol, c.protocol);
        Text.LexAsymmetric(a.protocol, b.protocol);
      }
    } else if a.stablecoin != b.stablecoin && b.stablecoin != c.stablecoin {
      Text.LexTransitive(a.stablecoin, b.stablecoin, c.stablecoin);
      Text.LexAsymmetric(a.stablecoin, b.stablecoin);
    }
  }

  /** The sorting step: an observation put in its place. */
  function Placed(s: seq<PoolObservation>, o: PoolObservation): seq<PoolObservation> {
    if s == [] || Precedes(s[|s| - 1], o) then s + [o]
    else Placed(s[..|s| - 1], o) + [s[|s| - 1]]
  }

  lemma {:induction false} PlacedIsListed(s: seq<PoolObservation>, o: PoolObservation)
    requires Listed(s) && forall x :: x in s ==> NameOf(x) != NameOf(o)
    ensures Listed(Placed(s, o))
    ensures forall x :: x in Placed(s, o) <==> x in s || x == o
  {
    if s != [] {
      var rest, last := s[..|s| - 1], s[|s| - 1];
      PrecedesTotal(last, o);
      assert s == rest + [last];
      if Precedes(last, o) {
        forall i | 0 <= i < |rest| ensures Precedes(s[i], o) {
          PrecedesTransitive(s[i], last, o);
        }
      } else {
        PlacedIsListed(rest, o);
        forall i | 0 <= i < |Placed(rest, o)| ensures Precedes(Placed(rest, o)[i], last) {
          assert Placed(rest, o)[i] in rest || Placed(rest, o)[i] == o;
        }
      }
    }
  }

  /** A listing is determined by what it lists. */
  lemma {:induction false} ListedOnce(a: seq<PoolObservation>, b: seq<PoolObservation>)
    requires Listed(a) && Listed(b) && forall x :: x in a <==> x in b
    ensures a == b
  {
    if a == [] {
      HasHead(b);
    } else {
      assert a[0] in b;
      SameLast(a, b);
      var a', b' := a[..|a| - 1], b[..|b| - 1];
      forall x ensures x in a' <==> x in b' {
        LastApart(a, x);
        LastApart(b, x);
      }
      ListedOnce(a', b');
      assert a == a' + [a[|a| - 1]] && b == b' + [b[|b| - 1]];
    }
  }

  lemma HasHead(s: seq<PoolObservation>)
    ensures s == [] || s[0] in s
  {
  }

  lemma SameLast(a: seq<PoolObservation>, b: seq<PoolObservation>)
    requires Listed(a) && Listed(b) && a != [] && b != [] && forall x :: x in a <==> x in b
    ensures a[|a| - 1] == b[|b| - 1]
  {
    var x, y := a[|a| - 1], b[|b| - 1];
    assert x in b && y in a;
    PrecedesTotal(x, y);
    PrecedesTotal(y, x);
  }

  lemma LastApart(a: seq<PoolObservation>, x: PoolObservation)
    requires Listed(a) && a != []
    ensures x in a[..|a| - 1] <==> x in a && x != a[|a| - 1]
  {
    assert a == a[..|a| - 1] + [a[|a| - 1]];
    forall i | 0 <= i < |a| - 1 ensures a[i] != a[|a| - 1] {
      PrecedesTotal(a[i], a[|a| - 1]);
    }
  }

  /** The sorted observations of the latest pools. */
  ghost predicate ObservationsOf(latest: map<string, PoolState>, config: Config, r: seq<PoolObservation>) {
    && Listed(r)
    && (forall k :: k in latest && Observed(latest[k], config).Some? ==> Observed(latest[k], config).value in r)
    && (forall o :: o in r ==> NameOf(o) in latest && Observed(latest[NameOf(o)], config) == Some(o))
  }

  /** The sorted observations of the newest eligible states of the pools. */
  ghost predicate IsListing(pools: seq<Option<PoolState>>, config: Config, r: seq<PoolObservation>) {
    exists latest :: IsLatest(pools, config.includeMempool, latest) && ObservationsOf(latest, config, r)
  }

  /** The newest state of a pool is one state when its position identifies it. */
  ghost predicate PositionsIdentify(pools: seq<Option<PoolState>>) {
    forall p, q :: Some(p) in pools && Some(q) in pools && SamePosition(p, q) ==> p == q
  }

  predicate SamePosition(p: PoolState, q: PoolState) {
    && PoolName(p.protocol, p.poolId) == PoolName(q.protocol, q.poolId)
    && p.slot == q.slot && p.txIndex == q.txIndex && p.txHash == q.txHash
  }

  /** An eligible state of a pool at its greatest slot, there at the greatest index, and last by its
      hash. */
  ghost predicate IsNewestState(pools: seq<Option<PoolState>>, includeMempool: bool, p: PoolState) {
    && Some(p) in pools && (includeMempool || !p.fromMempool)
    && forall q :: Some(q) in pools && (includeMempool || !q.fromMempool) && q.protocol == p.protocol && q.poolId == p.poolId ==>
         && q.slot <= p.slot && (q.slot == p.slot ==> q.txIndex <= p.txIndex)
         && (q.slot == p.slot && q.txIndex == p.txIndex ==> !Text.LexLess(p.txHash, q.txHash))
  }

  ghost predicate NamesSeparate(pools: seq<Option<PoolState>>) {
    forall p :: Some(p) in pools ==> ':' !in p.protocol
  }

  lemma PoolNameIff(p: PoolState, q: PoolState)
    requires ':' !in p.protocol && ':' !in q.protocol
    ensures PoolName(p.protocol, p.poolId) == PoolName(q.protocol, q.poolId) <==> p.protocol == q.protocol && p.poolId == q.poolId
  {
    if PoolName(p.protocol, p.poolId) == PoolName(q.protocol, q.poolId) {
      Text.JoinInjective(p.protocol, p.poolId, q.protocol, q.poolId, ':');
    }
  }

  lemma LatestIsNewest(pools: seq<Option<PoolState>>, includeMempool: bool, latest: map<string, PoolState>, p: PoolState)
    requires IsLatest(pools, includeMempool, latest) && NamesSeparate(pools)
    ensures PoolName(p.protocol, p.poolId) in latest && latest[PoolName(p.protocol, p.poolId)] == p ==>
              IsNewestState(pools, includeMempool, p)
    ensures IsNewestState(pools, includeMempool, p) ==>
              PoolName(p.protocol, p.poolId) in latest &&
              SamePosition(latest[PoolName(p.protocol, p.poolId)], p)
  {
    var k := PoolName(p.protocol, p.poolId);
    if IsNewestState(pools, includeMempool, p) {
      assert Eligible(Some(p), includeMempool);
      var q := latest[k];
      assert Some(q) in pools && Eligible(Some(q), includeMempool);
      PoolNameIff(p, q);
      Text.LexTotal(p.txHash, q.txHash);
    }
    if k in latest && latest[k] == p {
      forall q | Some(q) in pools && (includeMempool || !q.fromMempool) && q.protocol == p.protocol && q.poolId == p.poolId
        ensures !Newer(q, p)
      {
        assert Eligible(Some(q), includeMempool);
      }
    }
  }

  /** The listing by the states alone: exactly what the newest eligible state of some pool observes,
      sorted by coin, protocol and pool. */
  lemma ListingIff(pools: seq<Option<PoolState>>, config: Config, r: seq<PoolObservation>, o: PoolObservation)
    requires IsListing(pools, config, r) && NamesSeparate(pools) && PositionsIdentify(pools)
    ensures o in r <==> exists p :: IsNewestState(pools, config.includeMempool, p) && Observes(p, config, o)
  {
    var latest :| IsLatest(pools, config.includeMempool, latest) && ObservationsOf(latest, config, r);
    if o in r {
      var p := latest[NameOf(o)];
      ObservedIff(p, config, o);
      LatestIsNewest(pools, config.includeMempool, latest, p);
      assert IsNewestState(pools, config.includeMempool, p) && Observes(p, config, o);
    }
    if p :| IsNewestState(pools, config.includeMempool, p) && Observes(p, config, o) {
      LatestIsNewest(pools, config.includeMempool, latest, p);
      var q := latest[PoolName(p.protocol, p.poolId)];
      assert SamePosition(q, p) && Some(q) in pools && Some(p) in pools;
      ObservedIff(p, config, o);
    }
  }

  /** No listed observation sorts before an earlier one. */
  lemma ListingIsSorted(pools: seq<Option<PoolState>>, config: Config, r: seq<PoolObservation>, i: nat, j: nat)
    requires IsListing(pools, config, r) && i < j < |r|
    ensures !Text.LexLess(r[j].stablecoin, r[i].stablecoin)
    ensures r[i].stablecoin == r[j].stablecoin ==> !Text.LexLess(r[j].protocol, r[i].protocol)
    ensures r[i].stablecoin == r[j].stablecoin && r[i].protocol == r[j].protocol ==> Text.LexLess(r[i].poolId, r[j].poolId)
  {
    assert Precedes(r[i], r[j]);
    forall x, y | Text.LexLess(x, y) ensures !Text.LexLess(y, x) && x != y {
      Text.LexAsymmetric(x, y);
    }
  }

  method ObservationsFromPools(pools: seq<Option<PoolState>>, config: Config)
    returns (observations: seq<PoolObservation>)
    ensures IsListing(pools, config, observations)
  {
    var newest := LatestPools(pools, config.includeMempool);
    observations := [];
    var left := newest.Keys;
    while left != {}
      invariant left <= newest.Keys && Listed(observations)
      invariant forall k :: k in newest && k !in left && Observed(newest[k], config).Some? ==>
        Observed(newest[k], config).value in observations
      invariant forall o :: o in observations ==>
        NameOf(o) in newest && NameOf(o) !in left && Observed(newest[NameOf(o)], config) == Some(o)
      decreases left
    {
      var key :| key in left;
      var observation := ObservationFromPool(newest[key], config);
      if observation.Some? {
        PlacedIsListed(observations, observation.value);
        observations := Placed(observations, observation.value);
      }
      left := left - {key};
    }
  }

  lemma LatestOnce(pools: seq<Option<PoolState>>, pools': seq<Option<PoolState>>, includeMempool: bool,
                   a: map<string, PoolState>, b: map<string, PoolState>)
    requires PositionsIdentify(pools) && forall p :: p in pools <==> p in pools'
    requires IsLatest(pools, includeMempool, a) && IsLatest(pools', includeMempool, b)
    ensures a == b
  {
    forall k | k in a ensures k in b && b[k] == a[k] {
      assert Some(a[k]) in pools' && Some(b[k]) in pools;
      Text.LexTotal(a[k].txHash, b[k].txHash);
      assert SamePosition(a[k], b[k]);
    }
    forall k | k in b ensures k in a {
      assert Some(b[k]) in pools;
    }
  }

  /** The observations do not depend on the order in which the pools, or the entries of the map
      of latest pools, are visited. */
  lemma ObservationsOrderIndependent(pools: seq<Option<PoolState>>, pools': seq<Option<PoolState>>, config: Config,
                                     r: seq<PoolObservation>, r': seq<PoolObservation>)
    requires PositionsIdentify(pools) && forall p :: p in pools <==> p in pools'
    requires IsListing(pools, config, r) && IsListing(pools', config, r')
    ensures r == r'
  {
    var latest :| IsLatest(pools, config.includeMempool, latest) && ObservationsOf(latest, config, r);
    var latest' :| IsLatest(pools', config.includeMempool, latest') && ObservationsOf(latest', config, r');
    LatestOnce(pools, pools', config.includeMempool, latest, latest');
    ListedOnce(r, r');
  }

  // ----- agreement -----

  /** No observation holds more than the largest allowed share of the liquidity. */
  predicate NoneDominates(s: seq<PoolObservation>, maxShare: real) {
    forall i :: 0 <= i < |s| ==> s[i].stableMicros as real <= maxShare * Total(s) as real
  }

  predicate WithinDivergence(p: real, q: real, divergence: real) { p - q <= divergence * q }

  /** Any two prices differ by at most the allowed fraction of the smaller one. */
  predicate Agree(s: seq<PoolObservation>, divergence: real)
    requires Priced(s)
  {
    forall i, j :: 0 <= i < |s| && 0 <= j < |s| ==>
      WithinDivergence(s[i].price.value, s[j].price.value, divergence)
  }

  function Symbols(s: seq<PoolObservation>): set<string> { set i | 0 <= i < |s| :: s[i].stablecoin }

  lemma SpreadDecides(high: real, low: real, p: real, q: real, divergence: real)
    requires 0.0 < low <= q && p <= high && divergence >= 0.0
    ensures (high - low) / low <= divergence <==> WithinDivergence(high, low, divergence)
    ensures WithinDivergence(high, low, divergence) ==> WithinDivergence(p, q, divergence)
  {
    var spread := (high - low) / low;
    assert spread * low == high - low;
    assert (divergence - spread) * low == divergence * low - (high - low);
    assert divergence * (q - low) >= 0.0;
  }

  lemma ShareDecides(micros: real, total: real, maxShare: real)
    requires total > 0.0
    ensures micros / total <= maxShare <==> micros <= maxShare * total
  {
    var share := micros / total;
    assert share * total == micros;
    assert (maxShare - share) * total == maxShare * total - micros;
  }

  /** The smallest and the largest price. */
  method Range(s: seq<PoolObservation>) returns (low: real, high: real)
    requires Priced(s) && s != []
    ensures low > 0.0
    ensures exists i, j :: 0 <= i < |s| && 0 <= j < |s| && s[i].price == Some(high) && s[j].price == Some(low)
    ensures forall i :: 0 <= i < |s| ==> low <= s[i].price.value <= high
  {
    low, high := s[0].price.value, s[0].price.value;
    ghost var lowAt, highAt := 0, 0;
    for i := 0 to |s|
      invariant 0 <= lowAt < |s| && 0 <= highAt < |s| && s[lowAt].price == Some(low) && s[highAt].price == Some(high)
      invariant forall k :: 0 <= k < i ==> low <= s[k].price.value <= high
      invariant low <= high
    {
      if s[i].price.value < low {
        low, lowAt := s[i].price.value, i;
      }
      if s[i].price.value > high {
        high, highAt := s[i].price.value, i;
      }
    }
  }

  method CheckShares(s: seq<PoolObservation>, total: uint64, maxShare: real) returns (ok: bool)
    requires total == Total(s) > 0
    ensures ok <==> NoneDominates(s, maxShare)
  {
    for i := 0 to |s|
      invariant forall k :: 0 <= k < i ==> s[k].stableMicros as real <= maxShare * Total(s) as real
    {
      ShareDecides(s[i].stableMicros as real, total as real, maxShare);
      if s[i].stableMicros as real / total as real > maxShare {
        return false;
      }
    }
    return true;
  }

  method CheckSpread(s: seq<PoolObservation>, divergence: real) returns (ok: bool)
    requires Priced(s) && s != [] && divergence >= 0.0
    ensures ok <==> Agree(s, divergence)
  {
    var low, high := Range(s);
    SpreadDecides(high, low, high, low, divergence);
    ok := (high - low) / low <= divergence;
    if ok {
      forall i, j | 0 <= i < |s| && 0 <= j < |s|
        ensures WithinDivergence(s[i].price.value, s[j].price.value, divergence)
      {
        SpreadDecides(high, low, s[i].price.value, s[j].price.value, divergence);
      }
    }
  }

  /** There are observations enough, of stablecoins enough. */
  predicate Diverse(observations: seq<PoolObservation>, config: Config) {
    |observations| >= config.minObservations && |Symbols(observations)| >= config.minStablecoins
  }

  /** Every check on the observations passes. */
  ghost predicate Qualified(observations: seq<PoolObservation>, config: Config)
    requires Priced(observations)
  {
    && Diverse(observations, config) && 0 < Total(observations) <= MAX_UINT64
    && NoneDominates(observations, config.maxPoolShare) && Agree(observations, config.maxDivergence)
  }

  /** Two listed prices are too far apart. */
  ghost predicate Apart(s: seq<PoolObservation>, divergence: real)
    requires Priced(s)
  {
    exists i, j :: PairApart(s, divergence, i, j)
  }

  predicate PairApart(s: seq<PoolObservation>, divergence: real, i: int, j: int)
    requires Priced(s)
  {
    && 0 <= i < |s| && 0 <= j < |s|
    && s[i].price.value - s[j].price.value > divergence * s[j].price.value
  }

  /** An observation holds more than a share of the total. */
  predicate Exceeds(o: PoolObservation, maxShare: real, total: nat) { o.stableMicros as real > maxShare * total as real }

  lemma DominatedIff(s: seq<PoolObservation>, maxShare: real)
    ensures !NoneDominates(s, maxShare) <==> exists o :: o in s && Exceeds(o, maxShare, Total(s))
  {
    assert NoneDominates(s, maxShare) <==> forall i :: 0 <= i < |s| ==> !Exceeds(s[i], maxShare, Total(s));
    if i :| 0 <= i < |s| && Exceeds(s[i], maxShare, Total(s)) {
      assert s[i] in s;
    }
  }

  lemma ApartIff(s: seq<PoolObservation>, divergence: real)
    requires Priced(s)
    ensures !Agree(s, divergence) <==> Apart(s, divergence)
  {
    if !Agree(s, divergence) {
      var i, j :| 0 <= i < |s| && 0 <= j < |s| && !WithinDivergence(s[i].price.value, s[j].price.value, divergence);
      assert PairApart(s, divergence, i, j);
    }
    if i, j :| PairApart(s, divergence, i, j) {
      assert !WithinDivergence(s[i].price.value, s[j].price.value, divergence);
    }
  }

  lemma SymbolsAre(s: seq<PoolObservation>)
    ensures Symbols(s) == set o | o in s :: o.stablecoin
  {
    forall o | o in s ensures o.stablecoin in Symbols(s) {
      var i :| 0 <= i < |s| && s[i] == o;
    }
  }

  /** The checks made on the observations, in order, and the median they qualify. */
  method Aggregate(observations: seq<PoolObservation>, config: Config) returns (r: Result<real, PriceError>)
    requires config.Valid() && Priced(observations)
    ensures r.Ok? <==> Qualified(observations, config)
    ensures r.Ok? ==> IsMedian(observations, r.value)
    ensures r == Err(ErrInsufficientObservations) <==>
      |observations| < config.minObservations || (Diverse(observations, config) && Total(observations) == 0)
    ensures r == Err(ErrInsufficientDiversity) <==>
      |observations| >= config.minObservations && |set o | o in observations :: o.stablecoin| < config.minStablecoins
    ensures r == Err(LiquidityOverflow) <==> Diverse(observations, config) && Total(observations) > MAX_UINT64
    ensures r == Err(ErrConcentratedLiquidity) <==>
      && Diverse(observations, config) && 0 < Total(observations) <= MAX_UINT64
      && exists o :: o in observations && Exceeds(o, config.maxPoolShare, Total(observations))
    ensures r == Err(ErrDivergentPrices) <==>
      && Diverse(observations, config) && 0 < Total(observations) <= MAX_UINT64
      && NoneDominates(observations, config.maxPoolShare)
      && Apart(observations, config.maxDivergence)
    ensures r.Err? ==> r.error != InvalidConfig && r.error != InvalidPrice
  {
    SymbolsAre(observations);
    DominatedIff(observations, config.maxPoolShare);
    ApartIff(observations, config.maxDivergence);
    if |observations| < config.minObservations {
      return Err(ErrInsufficientObservations);
    }
    if |Symbols(observations)| < config.minStablecoins {
      return Err(ErrInsufficientDiversity);
    }
    var median := LiquidityWeightedMedian(observations);
    if median.Err? {
      return Err(median.error);
    }
    var (price, total) := median.value;
    var shares := CheckShares(observations, total, config.maxPoolShare);
    if !shares {
      return Err(ErrConcentratedLiquidity);
    }
    var agree := CheckSpread(observations, config.maxDivergence);
    if !agree {
      return Err(ErrDivergentPrices);
    }
    return Ok(price);
  }

  lemma {:induction false} AllWithin(s: seq<PoolObservation>, a: real, b: real)
    requires Priced(s) && forall i :: 0 <= i < |s| ==> a <= s[i].price.value <= b
    ensures Within(s, a, b) == Total(s)
  {
    if s != [] {
      AllWithin(s[..|s| - 1], a, b);
    }
  }

  function Low(p: real, divergence: real): real
    requires divergence >= 0.0
  {
    p / (1.0 + divergence)
  }

  function High(p: real, divergence: real): real { p + divergence * p }

  lemma BandIff(p: real, q: real, divergence: real)
    requires divergence >= 0.0
    ensures WithinDivergence(p, q, divergence) <==> Low(p, divergence) <= q
    ensures WithinDivergence(q, p, divergence) <==> q <= High(p, divergence)
  {
    var k, low := 1.0 + divergence, Low(p, divergence);
    assert low * k == p;
    assert (q - low) * k == q + divergence * q - p;
    if low <= q {
      assert (q - low) * k >= 0.0;
    }
    if WithinDivergence(p, q, divergence) {
      CancelPositive(q - low, k);
    }
  }

  /** A qualified price and every observed price differ by at most the allowed fraction of either. */
  lemma QualifiedPriceIsCloseToAll(s: seq<PoolObservation>, median: real, divergence: real, i: nat)
    requires Priced(s) && Total(s) > 0 && divergence >= 0.0 && i < |s|
    requires Agree(s, divergence) && IsMedian(s, median)
    ensures WithinDivergence(median, s[i].price.value, divergence)
    ensures WithinDivergence(s[i].price.value, median, divergence)
  {
    var p := s[i].price.value;
    forall j | 0 <= j < |s| ensures Low(p, divergence) <= s[j].price.value <= High(p, divergence) {
      BandIff(p, s[j].price.value, divergence);
    }
    AllWithin(s, Low(p, divergence), High(p, divergence));
    MedianWithinMajority(s, median, Low(p, divergence), High(p, divergence));
    BandIff(p, median, divergence);
  }

  lemma CancelPositive(x: real, k: real)
    requires k > 0.0 && x * k >= 0.0
    ensures x >= 0.0
  {
    assert x < 0.0 ==> -x * k > 0.0;
  }

  lemma ListingIsPriced(pools: seq<Option<PoolState>>, config: Config, r: seq<PoolObservation>)
    requires IsListing(pools, config, r)
    ensures Priced(r)
  {
    var latest :| IsLatest(pools, config.includeMempool, latest) && ObservationsOf(latest, config, r);
    forall i | 0 <= i < |r| ensures r[i].price.Some? && r[i].price.value > 0.0 {
      assert r[i] in r;
      ObservedIsPriced(latest[NameOf(r[i])], config);
      assert Priced([r[i]]) && [r[i]][0] == r[i];
    }
  }

  /** AggregateADAUSDAt: it answers exactly when the observations of the newest eligible state of
      every pool pass every check, and then with their median. */
  method AggregateADAUSDAt(pools: seq<Option<PoolState>>, config: Config)
    returns (r: Result<(real, seq<PoolObservation>), PriceError>, ghost listed: seq<PoolObservation>)
    ensures r == Err(InvalidConfig) <==>
      || config.stablecoins == [] || config.minObservations < 1 || config.minStablecoins < 1
      || config.maxPoolShare <= 0.0 || config.maxPoolShare > 1.0 || config.maxDivergence < 0.0
    ensures config.Valid() ==> IsListing(pools, config, listed) && Priced(listed) && (r.Ok? <==> Qualified(listed, config))
    ensures r.Ok? ==> r.value.1 == listed && Priced(listed) && IsMedian(listed, r.value.0)
  {
    listed := [];
    if !config.Valid() {
      return Err(InvalidConfig), listed;
    }
    var observations := ObservationsFromPools(pools, config);
    listed := observations;
    ListingIsPriced(pools, config, observations);
    var median := Aggregate(observations, config);
    r := if median.Ok? then Ok((median.value, observations)) else Err(median.error);
  }
}
