/** Time-weighted average prices over a step function (price/twap.go). Times are whole
    nanoseconds, prices exact reals. */
module TwapSpec {
  import opened Words

  /** Go's zero time. */
  const ZERO_TIME := 0

  datatype Config = Config(window: int, minCoverage: int, maxStaleness: int, maxObservations: int)

  datatype Observation = Observation(slot: uint64, at: int, price: real)

  datatype Engine = Engine(config: Config, observations: seq<Observation>, historyPruned: bool)

  datatype TwapError =
    | ErrInvalidTWAPConfig
    | ErrInvalidTWAPObservation
    | ErrOutOfOrderTWAP
    | ErrInsufficientTWAPHistory
    | ErrStaleTWAP
    | ErrTWAPRollbackUnavailable
    | ErrInvalidTWAPState

  predicate ValidConfig(c: Config) {
    c.window > 0 && 0 < c.minCoverage <= c.window && c.maxStaleness >= 0 && c.maxObservations >= 1
  }

  // ----- the step function -----

  /** The price in effect at a time: that of the last observation not after it. */
  function PriceAt(log: seq<Observation>, t: int): real {
    if log == [] then 0.0
    else if log[|log| - 1].at <= t then log[|log| - 1].price
    else PriceAt(log[..|log| - 1], t)
  }

  /** The integral of the step function over [a, b), one nanosecond at a time. */
  function Integral(log: seq<Observation>, a: int, b: int): real
    decreases b - a
  {
    if b <= a then 0.0 else Integral(log, a, b - 1) + PriceAt(log, b - 1)
  }

  predicate Ordered(log: seq<Observation>, i: nat, j: nat)
    requires i < j < |log|
  {
    log[i].slot < log[j].slot && log[i].at < log[j].at
  }

  predicate Increasing(log: seq<Observation>) { forall i, j :: 0 <= i < j < |log| ==> Ordered(log, i, j) }

  lemma IncreasingPrefix(log: seq<Observation>, n: nat)
    requires Increasing(log) && n <= |log|
    ensures Increasing(log[..n])
  {
    forall i, j | 0 <= i < j < n ensures Ordered(log[..n], i, j) {
      assert Ordered(log, i, j);
    }
  }

  lemma IncreasingSuffix(log: seq<Observation>, n: nat)
    requires Increasing(log) && n <= |log|
    ensures Increasing(log[n..])
  {
    forall i, j | 0 <= i < j < |log| - n ensures Ordered(log[n..], i, j) {
      assert Ordered(log, n + i, n + j);
    }
  }

  lemma IncreasingAppended(log: seq<Observation>, o: Observation)
    requires Increasing(log) && InOrder(log, o.slot, o.at)
    ensures Increasing(log + [o])
  {
    var last, grown := |log| - 1, log + [o];
    forall i, j | 0 <= i < j < |grown| ensures Ordered(grown, i, j) {
      if j < |log| {
        assert Ordered(log, i, j);
      } else {
        assert i < last ==> Ordered(log, i, last);
      }
    }
  }

  predicate Positive(log: seq<Observation>) {
    forall i :: 0 <= i < |log| ==> log[i].price > 0.0 && log[i].at != ZERO_TIME
  }

  // ----- the average, defined by the integral -----

  datatype Twap = Twap(price: real, windowStart: int, windowEnd: int, coverage: int, count: nat, lastSlot: uint64, lastAt: int)

  /** The observations not after a time. */
  function Known(log: seq<Observation>, now: int): seq<Observation> {
    if log != [] && log[|log| - 1].at > now then Known(log[..|log| - 1], now) else log
  }

  function CountAfter(log: seq<Observation>, t: int): nat {
    if log == [] then 0 else CountAfter(log[..|log| - 1], t) + if log[|log| - 1].at > t then 1 else 0
  }

  function CoverageStart(c: Config, log: seq<Observation>, now: int): int
    requires log != []
  {
    Max(now - c.window, log[0].at)
  }

  function AverageAt(c: Config, log: seq<Observation>, now: int): Result<Twap, TwapError>
    requires ValidConfig(c)
  {
    var known := Known(log, now);
    if known == [] then Err(ErrInsufficientTWAPHistory)
    else
      var latest := known[|known| - 1];
      var start := CoverageStart(c, known, now);
      if now - latest.at > c.maxStaleness then Err(ErrStaleTWAP)
      else if now - start < c.minCoverage then Err(ErrInsufficientTWAPHistory)
      else
        Ok(Twap(Integral(known, start, now) / ((now - start) as real), now - c.window, now, now - start,
                1 + CountAfter(known, start), latest.slot, latest.at))
  }

  /** addWeightedPrice. */
  function AddWeightedPrice(total: real, price: real, duration: int): real {
    if duration <= 0 then total else total + price * (duration as real)
  }

  // ----- observing, pruning, rolling back -----

  /** How many leading observations are not after a time. */
  function NotAfter(log: seq<Observation>, t: int): (n: nat)
    ensures n <= |log|
  {
    if log != [] && log[0].at <= t then 1 + NotAfter(log[1..], t) else 0
  }

  /** prune keeps the newest observation at or before the cutoff as the anchor of the window, and
      never more than the configured number. */
  function KeepFrom(c: Config, log: seq<Observation>, latest: int): (n: nat)
    requires ValidConfig(c)
    ensures n <= |log| && (log != [] ==> n < |log|)
  {
    var anchored := NotAfter(log, latest - c.window);
    var keep := if anchored > 0 then anchored - 1 else 0;
    if |log| - keep > c.maxObservations then |log| - c.maxObservations else keep
  }

  /** The list from its newest observation at or before a time on; all of it when there is none. */
  ghost predicate FromAnchor(all: seq<Observation>, start: int, kept: seq<Observation>) {
    exists k :: AnchoredAt(all, start, k) && kept == all[k..]
  }

  predicate AnchoredAt(all: seq<Observation>, start: int, k: int) {
    0 <= k < |all| && (k > 0 ==> all[k].at <= start) && (k + 1 < |all| ==> all[k + 1].at > start)
  }

  /** What an accepted observation leaves, by the list that ends with it: the anchor of the window and
      everything later when that fits the limit, and otherwise exactly as many of the newest. */
  ghost predicate IsRetained(c: Config, all: seq<Observation>, kept: seq<Observation>) {
    && all != []
    && exists anchored :: FromAnchor(all, all[|all| - 1].at - c.window, anchored)
         && if |anchored| <= c.maxObservations then kept == anchored
            else |kept| == c.maxObservations && kept == all[|all| - |kept|..]
  }

  predicate InOrder(log: seq<Observation>, slot: uint64, at: int) {
    log == [] || (slot > log[|log| - 1].slot && at > log[|log| - 1].at)
  }

  function Observe(e: Engine, slot: uint64, at: int, value: Option<real>): Result<Engine, TwapError>
    requires ValidConfig(e.config)
  {
    if at == ZERO_TIME || value.None? || value.value <= 0.0 then Err(ErrInvalidTWAPObservation)
    else if !InOrder(e.observations, slot, at) then Err(ErrOutOfOrderTWAP)
    else
      var all := e.observations + [Observation(slot, at, value.value)];
      var keep := KeepFrom(e.config, all, at);
      Ok(e.(observations := all[keep..], historyPruned := e.historyPruned || keep > 0))
  }

  /** The observations not after a slot. */
  function UpToSlot(log: seq<Observation>, slot: uint64): seq<Observation> {
    if log != [] && log[|log| - 1].slot > slot then UpToSlot(log[..|log| - 1], slot) else log
  }

  function Rollback(e: Engine, slot: uint64): Result<Engine, TwapError> {
    var obs := e.observations;
    if obs != [] && slot >= obs[|obs| - 1].slot then Ok(e)
    else if e.historyPruned && (obs == [] || slot < obs[0].slot) then Err(ErrTWAPRollbackUnavailable)
    else Ok(e.(observations := UpToSlot(obs, slot)))
  }

  // ----- restoring -----

  /** Replays persisted observations into an engine that already carries the persisted flag. */
  function Replay(e: Engine, persisted: seq<Observation>): Result<Engine, TwapError>
    requires ValidConfig(e.config)
    ensures Replay(e, persisted).Ok? ==> Replay(e, persisted).value.config == e.config
    decreases |persisted|
  {
    if persisted == [] then Ok(e)
    else
      var prefix := Replay(e, persisted[..|persisted| - 1]);
      var last := persisted[|persisted| - 1];
      if prefix.Err? then prefix else Observe(prefix.value, last.slot, last.at, Some(last.price))
  }

  function FromState(state: Engine): Result<Engine, TwapError> {
    if !ValidConfig(state.config) then Err(ErrInvalidTWAPState)
    else
      var replayed := Replay(Engine(state.config, [], state.historyPruned), state.observations);
      if replayed.Err? || |replayed.value.observations| != |state.observations| then Err(ErrInvalidTWAPState)
      else Ok(replayed.value.(historyPruned := state.historyPruned))
  }

  // ----- lemmas about the step function -----

  lemma {:induction false} PriceOfSuffix(log: seq<Observation>, from: nat, t: int)
    requires from < |log| && Increasing(log) && log[from].at <= t
    ensures PriceAt(log[from..], t) == PriceAt(log, t)
  {
    if log[|log| - 1].at > t {
      assert log[from..][..|log| - 1 - from] == log[..|log| - 1][from..];
      IncreasingPrefix(log, |log| - 1);
      PriceOfSuffix(log[..|log| - 1], from, t);
    }
  }

  lemma {:induction false} IntegralOfSuffix(log: seq<Observation>, from: nat, a: int, b: int)
    requires from < |log| && Increasing(log) && log[from].at <= a
    ensures Integral(log[from..], a, b) == Integral(log, a, b)
    decreases b - a
  {
    if b > a {
      IntegralOfSuffix(log, from, a, b - 1);
      PriceOfSuffix(log, from, b - 1);
    }
  }

  lemma {:induction false} PriceOfKnown(log: seq<Observation>, now: int, t: int)
    requires t <= now
    ensures PriceAt(Known(log, now), t) == PriceAt(log, t)
  {
    if log != [] && log[|log| - 1].at > now {
      PriceOfKnown(log[..|log| - 1], now, t);
    }
  }

  lemma {:induction false} IntegralOfKnown(log: seq<Observation>, now: int, a: int, b: int)
    requires b <= now
    ensures Integral(Known(log, now), a, b) == Integral(log, a, b)
    decreases b - a
  {
    if b > a {
      IntegralOfKnown(log, now, a, b - 1);
      PriceOfKnown(log, now, b - 1);
    }
  }

  lemma {:induction false} KnownIsPrefix(log: seq<Observation>, now: int) returns (n: nat)
    ensures n <= |log| && Known(log, now) == log[..n]
    ensures n < |log| ==> log[n].at > now
    ensures n > 0 ==> log[n - 1].at <= now
  {
    if log != [] && log[|log| - 1].at > now {
      n := KnownIsPrefix(log[..|log| - 1], now);
      assert log[..|log| - 1][..n] == log[..n];
    } else {
      n := |log|;
      assert log[..n] == log;
    }
  }

  /** Where one price is in effect the integral is price times duration. */
  lemma {:induction false} IntegralOfConstant(log: seq<Observation>, a: int, b: int, price: real)
    requires a <= b
    requires forall t :: a <= t < b ==> PriceAt(log, t) == price
    ensures Integral(log, a, b) == price * ((b - a) as real)
    decreases b - a
  {
    if b > a {
      IntegralOfConstant(log, a, b - 1, price);
      assert PriceAt(log, b - 1) == price;
      assert price * ((b - 1 - a) as real) + price == price * ((b - a) as real);
    }
  }

  lemma {:induction false} IntegralSplit(log: seq<Observation>, a: int, m: int, b: int)
    requires a <= m <= b
    ensures Integral(log, a, b) == Integral(log, a, m) + Integral(log, m, b)
    decreases b - m
  {
    if b > m {
      IntegralSplit(log, a, m, b - 1);
    }
  }

  ghost predicate PricesWithin(log: seq<Observation>, a: int, b: int, lo: real, hi: real) {
    forall t :: a <= t < b ==> lo <= PriceAt(log, t) <= hi
  }

  lemma {:induction false} IntegralBounds(log: seq<Observation>, a: int, b: int, n: nat, lo: real, hi: real)
    requires b == a + n && PricesWithin(log, a, b, lo, hi)
    ensures lo * (n as real) <= Integral(log, a, b) <= hi * (n as real)
    decreases n
  {
    if n > 0 {
      IntegralBounds(log, a, b - 1, n - 1, lo, hi);
      assert lo <= PriceAt(log, b - 1) <= hi;
      OneMore(lo, n);
      OneMore(hi, n);
    }
  }

  lemma OneMore(x: real, n: nat)
    requires n > 0
    ensures x * (n as real) == x * ((n - 1) as real) + x
  {
    assert n as real == (n - 1) as real + 1.0;
  }

  lemma {:induction false} PriceBetween(log: seq<Observation>, i: nat, t: int)
    requires i < |log| && Increasing(log) && log[i].at <= t
    requires i + 1 < |log| ==> t < log[i + 1].at
    ensures PriceAt(log, t) == log[i].price
  {
    if i < |log| - 1 {
      assert i + 1 < |log| - 1 ==> Ordered(log, i + 1, |log| - 1);
      IncreasingPrefix(log, |log| - 1);
      PriceBetween(log[..|log| - 1], i, t);
    }
  }

  lemma {:induction false} CountAfterSplit(a: seq<Observation>, b: seq<Observation>, t: int)
    ensures CountAfter(a + b, t) == CountAfter(a, t) + CountAfter(b, t)
  {
    if b == [] {
      assert a + b == a;
    } else {
      assert (a + b)[..|a + b| - 1] == a + b[..|b| - 1];
      CountAfterSplit(a, b[..|b| - 1], t);
    }
  }

  lemma {:induction false} CountAfterNone(log: seq<Observation>, t: int)
    requires forall i :: 0 <= i < |log| ==> log[i].at <= t
    ensures CountAfter(log, t) == 0
  {
    if log != [] {
      CountAfterNone(log[..|log| - 1], t);
    }
  }

  lemma {:induction false} NotAfterProperties(log: seq<Observation>, t: int)
    requires Increasing(log)
    ensures forall i :: 0 <= i < |log| ==> (i < NotAfter(log, t) <==> log[i].at <= t)
  {
    if log != [] {
      IncreasingSuffix(log, 1);
      NotAfterProperties(log[1..], t);
      forall i | 0 <= i < |log| ensures i < NotAfter(log, t) <==> log[i].at <= t {
        assert i > 0 ==> log[i] == log[1..][i - 1] && Ordered(log, 0, i);
      }
    }
  }

  lemma AnchorIs(all: seq<Observation>, start: int, k: nat)
    requires Increasing(all) && all != [] && k == if NotAfter(all, start) > 0 then NotAfter(all, start) - 1 else 0
    ensures k < |all| && FromAnchor(all, start, all[k..])
  {
    NotAfterProperties(all, start);
    assert AnchoredAt(all, start, k);
  }

  lemma LimitedIs(c: Config, all: seq<Observation>, start: int, k: nat, keep: nat)
    requires ValidConfig(c) && all != [] && start == all[|all| - 1].at - c.window
    requires k < |all| && FromAnchor(all, start, all[k..])
    requires keep == if |all| - k > c.maxObservations then |all| - c.maxObservations else k
    ensures IsRetained(c, all, all[keep..])
  {
    assert |all[k..]| == |all| - k && |all[keep..]| == |all| - keep;
  }

  lemma KeepFromRetains(c: Config, all: seq<Observation>)
    requires ValidConfig(c) && Increasing(all) && all != []
    ensures IsRetained(c, all, all[KeepFrom(c, all, all[|all| - 1].at)..])
  {
    var start := all[|all| - 1].at - c.window;
    var k := if NotAfter(all, start) > 0 then NotAfter(all, start) - 1 else 0;
    AnchorIs(all, start, k);
    LimitedIs(c, all, start, k, KeepFrom(c, all, all[|all| - 1].at));
  }

  /** What prune keeps of a list that ends at the latest time. */
  lemma PruneRetains(c: Config, all: seq<Observation>, latest: int)
    requires ValidConfig(c)
    ensures Increasing(all) && all != [] && latest == all[|all| - 1].at ==>
              IsRetained(c, all, all[KeepFrom(c, all, latest)..])
  {
    if Increasing(all) && all != [] && latest == all[|all| - 1].at {
      KeepFromRetains(c, all);
    }
  }

  lemma {:induction false} UpToSlotIsPrefix(log: seq<Observation>, slot: uint64) returns (n: nat)
    requires Increasing(log)
    ensures n <= |log| && UpToSlot(log, slot) == log[..n]
    ensures forall i :: 0 <= i < |log| ==> (i < n <==> log[i].slot <= slot)
  {
    if log != [] && log[|log| - 1].slot > slot {
      IncreasingPrefix(log, |log| - 1);
      n := UpToSlotIsPrefix(log[..|log| - 1], slot);
      assert log[..|log| - 1][..n] == log[..n];
      assert forall i :: 0 <= i < |log| - 1 ==> log[..|log| - 1][i] == log[i];
    } else {
      n := |log|;
      assert log[..n] == log;
      var last := |log| - 1;
      forall i | 0 <= i < |log| ensures log[i].slot <= slot {
        assert i < last ==> Ordered(log, i, last);
      }
    }
  }
}
