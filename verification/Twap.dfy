/** The TWAP engine as the object the source has (price/twap.go): observations and the pruned flag
    are fields, and TWAPAt accumulates weighted prices interval by interval. */
module Twap {
  import opened Words
  import opened TwapSpec

  class TWAPEngine {
    const config: Config
    var observations: seq<Observation>
    var historyPruned: bool

    function State(): Engine
      reads this
    {
      Engine(config, observations, historyPruned)
    }

    /** Observations are kept in order of slot and time. */
    ghost predicate Valid()
      reads this
    {
      ValidConfig(config) && Increasing(observations)
    }

    constructor (config: Config)
      ensures State() == Engine(config, [], false)
    {
      this.config := config;
      observations, historyPruned := [], false;
    }

    static method NewTWAPEngine(config: Config) returns (r: Result<TWAPEngine, TwapError>)
      ensures r.Ok? <==>
        && config.window > 0 && config.minCoverage > 0 && config.minCoverage <= config.window
        && config.maxStaleness >= 0 && config.maxObservations >= 1
      ensures r.Ok? <==> ValidConfig(config)
      ensures r.Ok? ==> fresh(r.value) && r.value.Valid() && r.value.State() == Engine(config, [], false)
    {
      if config.window <= 0 || config.minCoverage <= 0 || config.minCoverage > config.window
         || config.maxStaleness < 0 || config.maxObservations < 1 {
        return Err(ErrInvalidTWAPConfig);
      }
      var e := new TWAPEngine(config);
      return Ok(e);
    }

    static method NewTWAPEngineFromState(state: Engine) returns (r: Result<TWAPEngine, TwapError>)
      ensures match FromState(state)
              case Ok(e) => r.Ok? && fresh(r.value) && r.value.Valid() && r.value.State() == e
              case Err(error) => r == Err(error)
    {
      var created := NewTWAPEngine(state.config);
      if created.Err? {
        return Err(ErrInvalidTWAPState);
      }
      var engine := created.value;
      engine.historyPruned := state.historyPruned;
      var replayed := engine.ObserveAll(state.observations);
      if replayed.Err? {
        return Err(ErrInvalidTWAPState);
      }
      if |engine.observations| != |state.observations| {
        return Err(ErrInvalidTWAPState);
      }
      engine.historyPruned := state.historyPruned;
      return Ok(engine);
    }

    /** Replays persisted observations until one is refused. */
    method ObserveAll(persisted: seq<Observation>) returns (r: Result<(), TwapError>)
      requires Valid()
      modifies this
      ensures Valid()
      ensures r.Ok? ==> Replay(old(State()), persisted) == Ok(State())
      ensures r.Err? ==> Replay(old(State()), persisted).Err?
    {
      var i := 0;
      while i < |persisted|
        invariant i <= |persisted| && Valid()
        invariant Replay(old(State()), persisted[..i]) == Ok(State())
      {
        assert persisted[..i + 1][..i] == persisted[..i];
        r := Observe(persisted[i].slot, persisted[i].at, Some(persisted[i].price));
        if r.Err? {
          ReplayFails(old(State()), persisted, i + 1);
          return;
        }
        i := i + 1;
      }
      assert persisted[..i] == persisted;
      return Ok(());
    }

    static lemma {:induction false} ReplayFails(e: Engine, persisted: seq<Observation>, n: nat)
      requires ValidConfig(e.config) && n <= |persisted| && Replay(e, persisted[..n]).Err?
      ensures Replay(e, persisted).Err?
      decreases |persisted|
    {
      if n < |persisted| {
        assert persisted[..|persisted| - 1][..n] == persisted[..n];
        ReplayFails(e, persisted[..|persisted| - 1], n);
      } else {
        assert persisted[..n] == persisted;
      }
    }

    method Observe(slot: uint64, observedAt: int, value: Option<real>) returns (r: Result<(), TwapError>)
      requires Valid()
      modifies this
      ensures Valid()
      ensures match TwapSpec.Observe(old(State()), slot, observedAt, value)
              case Ok(e) => r == Ok(()) && State() == e
              case Err(error) => r == Err(error) && State() == old(State())
      ensures r.Ok? ==>
        var all := old(observations) + [Observation(slot, observedAt, value.value)];
        && IsRetained(config, all, observations)
        && historyPruned == (old(historyPruned) || |observations| < |all|)
    {
      if observedAt == ZERO_TIME || value.None? || value.value <= 0.0 {
        return Err(ErrInvalidTWAPObservation);
      }
      if |observations| > 0 {
        var latest := observations[|observations| - 1];
        if slot <= latest.slot || observedAt <= latest.at {
          return Err(ErrOutOfOrderTWAP);
        }
      }
      IncreasingAppended(observations, Observation(slot, observedAt, value.value));
      observations := observations + [Observation(slot, observedAt, value.value)];
      IncreasingSuffix(observations, KeepFrom(config, observations, observedAt));
      Prune(observedAt);
      return Ok(());
    }

    method Prune(latest: int)
      requires ValidConfig(config)
      modifies this
      ensures var keep := KeepFrom(config, old(observations), latest);
              observations == old(observations)[keep..] && historyPruned == (old(historyPruned) || keep > 0)
      ensures var all := old(observations);
        Increasing(all) && all != [] && latest == all[|all| - 1].at ==> IsRetained(config, all, observations)
    {
      PruneRetains(config, observations, latest);
      var cutoff := latest - config.window;
      var firstAfter := 0;
      while firstAfter < |observations| && observations[firstAfter].at <= cutoff
        invariant firstAfter <= |observations|
        invariant NotAfter(observations, cutoff) == firstAfter + NotAfter(observations[firstAfter..], cutoff)
      {
        assert observations[firstAfter..][1..] == observations[firstAfter + 1..];
        firstAfter := firstAfter + 1;
      }
      var keepFrom := 0;
      if firstAfter > 0 {
        keepFrom := firstAfter - 1;
      }
      var remaining := |observations| - keepFrom;
      if remaining > config.maxObservations {
        keepFrom := keepFrom + remaining - config.maxObservations;
      }
      if keepFrom == 0 {
        return;
      }
      historyPruned := true;
      observations := observations[keepFrom..];
    }

    /** The interval sums of the source are the integral of the step function. */
    method TWAPAt(now: int) returns (r: Result<TwapSpec.Twap, TwapError>)
      requires Valid()
      ensures r == AverageAt(config, observations, now)
    {
      var end := |observations|;
      assert observations[..end] == observations;
      while end > 0 && observations[end - 1].at > now
        invariant 0 <= end <= |observations|
        invariant Known(observations[..end], now) == Known(observations, now)
      {
        assert observations[..end][..end - 1] == observations[..end - 1];
        end := end - 1;
      }
      if end == 0 {
        return Err(ErrInsufficientTWAPHistory);
      }
      var known := observations[..end];
      IncreasingPrefix(observations, end);
      var latest := known[|known| - 1];
      if now - latest.at > config.maxStaleness {
        return Err(ErrStaleTWAP);
      }
      var windowStart := now - config.window;
      var start := Anchor(known, windowStart);
      var kept := known[start..];
      var coverageStart := windowStart;
      if kept[0].at > windowStart {
        coverageStart := kept[0].at;
      }
      assert start > 0 ==> Ordered(known, 0, start);
      assert coverageStart == CoverageStart(config, known, now);
      var coverage := now - coverageStart;
      if coverage < config.minCoverage {
        return Err(ErrInsufficientTWAPHistory);
      }
      forall i | start < i < |known| ensures known[i].at >= coverageStart {
        assert Ordered(known, start, i);
      }
      var weighted, count := Accumulate(known, start, coverageStart, now);
      return Ok(TwapSpec.Twap(weighted / (coverage as real), windowStart, now, coverage, count, latest.slot, latest.at));
    }

    /** The newest observation before the window, or the first one. */
    static method Anchor(known: seq<Observation>, windowStart: int) returns (start: nat)
      requires known != [] && Increasing(known)
      ensures start < |known|
      ensures known[start].at >= windowStart ==> start == 0
      ensures forall i :: start < i < |known| ==> known[i].at >= windowStart
    {
      start := 0;
      while start < |known| && known[start].at < windowStart
        invariant start <= |known|
        invariant forall i :: 0 <= i < start ==> known[i].at < windowStart
      {
        start := start + 1;
      }
      forall i | start < i < |known| ensures known[i].at >= windowStart {
        assert Ordered(known, start, i);
      }
      if start > 0 {
        start := start - 1;
      }
    }

    static method Accumulate(known: seq<Observation>, start: nat, coverageStart: int, now: int)
      returns (weighted: real, count: nat)
      requires start < |known| && Increasing(known)
      requires known[start].at <= coverageStart < now && known[|known| - 1].at <= now
      requires forall i :: start < i < |known| ==> known[i].at >= coverageStart
      ensures weighted == Integral(known, coverageStart, now)
      ensures count == 1 + CountAfter(known, coverageStart)
    {
      var current := known[start];
      var intervalStart := coverageStart;
      weighted, count := 0.0, 1;
      var i := start + 1;
      CountBefore(known, start, coverageStart);
      while i < |known|
        invariant start < i <= |known|
        invariant current == known[i - 1]
        invariant coverageStart <= intervalStart <= now
        invariant known[i - 1].at <= intervalStart
        invariant intervalStart == if i - 1 > start then known[i - 1].at else coverageStart
        invariant weighted == Integral(known, coverageStart, intervalStart)
        invariant count == 1 + CountAfter(known[..i], coverageStart)
      {
        assert Ordered(known, i - 1, i);
        assert i < |known| - 1 ==> Ordered(known, i, |known| - 1);
        CountNext(known, i, coverageStart);
        if known[i].at <= intervalStart {
          current := known[i];
        } else {
          IntervalWeight(known, i - 1, coverageStart, intervalStart, known[i].at);
          weighted := AddWeightedPrice(weighted, current.price, known[i].at - intervalStart);
          current := known[i];
          intervalStart := known[i].at;
          count := count + 1;
        }
        i := i + 1;
      }
      assert known[..i] == known;
      IntervalWeight(known, i - 1, coverageStart, intervalStart, now);
      weighted := AddWeightedPrice(weighted, current.price, now - intervalStart);
    }

    static lemma CountNext(known: seq<Observation>, i: nat, t: int)
      requires i < |known|
      ensures CountAfter(known[..i + 1], t) == CountAfter(known[..i], t) + if known[i].at > t then 1 else 0
    {
      assert known[..i + 1][..i] == known[..i];
    }

    static lemma CountBefore(known: seq<Observation>, start: nat, t: int)
      requires start < |known| && Increasing(known) && known[start].at <= t
      ensures CountAfter(known[..start + 1], t) == 0
    {
      forall i | 0 <= i <= start ensures known[i].at <= t {
        assert i < start ==> Ordered(known, i, start);
      }
      CountAfterNone(known[..start + 1], t);
    }

    /** Between two observations the earlier price is in effect. */
    static lemma IntervalWeight(known: seq<Observation>, i: nat, from: int, a: int, b: int)
      requires i < |known| && Increasing(known) && known[i].at <= a <= b && from <= a
      requires i + 1 < |known| ==> b <= known[i + 1].at
      ensures Integral(known, from, b) == AddWeightedPrice(Integral(known, from, a), known[i].price, b - a)
    {
      IntegralSplit(known, from, a, b);
      forall t | a <= t < b ensures PriceAt(known, t) == known[i].price {
        PriceBetween(known, i, t);
      }
      IntegralOfConstant(known, a, b, known[i].price);
    }

    method Rollback(slot: uint64) returns (r: Result<(), TwapError>)
      requires Valid()
      modifies this`observations
      ensures Valid()
      ensures match TwapSpec.Rollback(old(State()), slot)
              case Ok(e) => r == Ok(()) && State() == e
              case Err(error) => r == Err(error) && State() == old(State())
    {
      if |observations| > 0 && slot >= observations[|observations| - 1].slot {
        return Ok(());
      }
      if historyPruned && (|observations| == 0 || slot < observations[0].slot) {
        return Err(ErrTWAPRollbackUnavailable);
      }
      var end := |observations|;
      assert observations[..end] == observations;
      while end > 0 && observations[end - 1].slot > slot
        invariant 0 <= end <= |observations|
        invariant UpToSlot(observations[..end], slot) == UpToSlot(observations, slot)
      {
        assert observations[..end][..end - 1] == observations[..end - 1];
        end := end - 1;
      }
      IncreasingPrefix(observations, end);
      observations := observations[..end];
      return Ok(());
    }

    method Snapshot() returns (state: Engine)
      ensures state == State()
    {
      var copied: seq<Observation> := [];
      var i := 0;
      while i < |observations|
        invariant i <= |observations| && copied == observations[..i]
      {
        copied := copied + [observations[i]];
        i := i + 1;
      }
      return Engine(config, copied, historyPruned);
    }
  }
}
