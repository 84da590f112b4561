/** What the bounded engine promises about the full logical history (price/twap.go). */
module TwapResults {
  import opened Words
  import opened TwapHistory
  import opened TwapSpec

  lemma {:induction false} KnownSplit(pruned: seq<Observation>, obs: seq<Observation>, now: int)
    requires Known(obs, now) != []
    ensures Known(pruned + obs, now) == pruned + Known(obs, now)
  {
    var log := pruned + obs;
    if obs[|obs| - 1].at > now {
      assert log[..|log| - 1] == pruned + obs[..|obs| - 1];
      KnownSplit(pruned, obs[..|obs| - 1], now);
    }
  }

  lemma KnownFacts(obs: seq<Observation>, now: int)
    requires Increasing(obs) && Known(obs, now) != []
    ensures var k := Known(obs, now); Increasing(k) && k[0] == obs[0] && k[|k| - 1].at <= now && k[0].at <= now
  {
    var n := KnownIsPrefix(obs, now);
    IncreasingPrefix(obs, n);
    assert n > 1 ==> Ordered(obs, 0, n - 1);
  }

  /** From the first retained observation on, the retained step function is the logical one. */
  lemma RetainedIntegral(pruned: seq<Observation>, obs: seq<Observation>, a: int, now: int)
    requires Increasing(pruned + obs) && Known(obs, now) != [] && a >= obs[0].at
    ensures Integral(Known(obs, now), a, now) == Integral(pruned + obs, a, now)
  {
    var log := pruned + obs;
    SuffixIncreasing(pruned, obs);
    IntegralOfKnown(obs, now, a, now);
    assert log[|pruned|..] == obs && log[|pruned|] == obs[0];
    IntegralOfSuffix(log, |pruned|, a, now);
  }

  /** A successful average over what is retained is the exact average of the logical history. */
  ghost predicate ExactOver(c: Config, log: seq<Observation>, now: int, r: Twap) {
    && c.minCoverage <= r.coverage <= c.window && r.windowEnd == now
    && r.price * (r.coverage as real) == Integral(log, now - r.coverage, now)
    && Known(log, now) != [] && r.lastAt == Known(log, now)[|Known(log, now)| - 1].at
  }

  lemma AverageOfRetained(c: Config, pruned: seq<Observation>, obs: seq<Observation>, now: int)
    requires ValidConfig(c) && Increasing(pruned + obs) && AverageAt(c, obs, now).Ok?
    ensures ExactOver(c, pruned + obs, now, AverageAt(c, obs, now).value)
  {
    SuffixIncreasing(pruned, obs);
    KnownFacts(obs, now);
    KnownSplit(pruned, obs, now);
    var start := CoverageStart(c, Known(obs, now), now);
    RetainedIntegral(pruned, obs, start, now);
    QuotientTimes(Integral(Known(obs, now), start, now), (now - start) as real);
    assert start == now - AverageAt(c, obs, now).value.coverage;
  }

  /** Whenever TWAPAt succeeds, after any run, price times coverage is the integral of the step
      function of the never-pruned history over the covered time. */
  lemma TwapIsExact(c: Config, ops: seq<Op>, now: int)
    requires ValidConfig(c) && AverageAt(c, Run(c, ops).engine.observations, now).Ok?
    ensures ExactOver(c, Run(c, ops).log, now, AverageAt(c, Run(c, ops).engine.observations, now).value)
  {
    RunHolds(c, ops);
    var s := Run(c, ops);
    var pruned :| HoldsAfter(s, pruned);
    AverageOfRetained(c, pruned, s.engine.observations, now);
  }

  /** The price lies between any bounds of the prices in effect during the covered time. */
  lemma TwapWithinPrices(c: Config, ops: seq<Op>, now: int, r: Twap, lo: real, hi: real)
    requires ValidConfig(c) && AverageAt(c, Run(c, ops).engine.observations, now) == Ok(r)
    requires PricesWithin(Run(c, ops).log, now - r.coverage, now, lo, hi)
    ensures lo <= r.price <= hi
  {
    TwapIsExact(c, ops, now);
    ExactWithin(c, Run(c, ops).log, now, r, lo, hi);
  }

  lemma ExactWithin(c: Config, log: seq<Observation>, now: int, r: Twap, lo: real, hi: real)
    requires ValidConfig(c) && ExactOver(c, log, now, r)
    requires PricesWithin(log, now - r.coverage, now, lo, hi)
    ensures lo <= r.price <= hi
  {
    IntegralBounds(log, now - r.coverage, now, r.coverage, lo, hi);
    ScaledBounds(r.price, r.coverage as real, Integral(log, now - r.coverage, now), lo, hi);
  }

  lemma QuotientTimes(total: real, covered: real)
    requires covered > 0.0
    ensures total / covered * covered == total
  {
  }

  lemma ScaledBounds(price: real, covered: real, total: real, lo: real, hi: real)
    requires covered > 0.0 && price * covered == total && lo * covered <= total <= hi * covered
    ensures lo <= price <= hi
  {
    assert (price - lo) * covered >= 0.0 && (hi - price) * covered >= 0.0;
  }

  // ----- what an answer says about the retained observations -----

  /** The i-th observation is the last one not after the query. */
  predicate LatestAt(obs: seq<Observation>, now: int, i: int) {
    0 <= i < |obs| && obs[i].at <= now && (i + 1 < |obs| ==> obs[i + 1].at > now)
  }

  ghost predicate NoneYet(obs: seq<Observation>, now: int) { forall o :: o in obs ==> o.at > now }

  function CoveredCount(obs: seq<Observation>, from: int, now: int): nat {
    |set i | 0 <= i < |obs| && from < obs[i].at <= now|
  }

  /** The covered time starts with the window or with the first observation. The count is that of the
      observations inside it and the one in effect at its start. */
  ghost predicate Tells(c: Config, obs: seq<Observation>, now: int, r: Twap) {
    && (exists i :: LatestAt(obs, now, i) && now - obs[i].at <= c.maxStaleness && r.lastSlot == obs[i].slot && r.lastAt == obs[i].at)
    && r.windowStart == now - c.window && r.windowEnd == now
    && r.coverage == (if now - obs[0].at < c.window then now - obs[0].at else c.window) >= c.minCoverage
    && r.count == 1 + CoveredCount(obs, now - r.coverage, now)
    && r.price * (r.coverage as real) == Integral(obs, now - r.coverage, now)
  }

  lemma {:induction false} CountIsCovered(log: seq<Observation>, from: int, now: int)
    requires forall i :: 0 <= i < |log| ==> log[i].at <= now
    ensures CountAfter(log, from) == CoveredCount(log, from, now)
  {
    if log != [] {
      var n := |log| - 1;
      CountIsCovered(log[..n], from, now);
      var fewer, more := (set i | 0 <= i < n && from < log[..n][i].at <= now), (set i | 0 <= i < |log| && from < log[i].at <= now);
      assert more == if log[n].at > from then fewer + {n} else fewer;
    }
  }

  lemma CoveredInPrefix(obs: seq<Observation>, n: nat, from: int, now: int)
    requires n <= |obs| && forall i :: n <= i < |obs| ==> obs[i].at > now
    ensures CoveredCount(obs[..n], from, now) == CoveredCount(obs, from, now)
  {
    assert (set i | 0 <= i < n && from < obs[..n][i].at <= now) == (set i | 0 <= i < |obs| && from < obs[i].at <= now);
  }

  /** Where the observations not after the query end. */
  lemma KnownEnds(obs: seq<Observation>, now: int) returns (n: nat)
    requires Increasing(obs)
    ensures n <= |obs| && Known(obs, now) == obs[..n]
    ensures forall i :: 0 <= i < |obs| ==> (i < n <==> obs[i].at <= now)
  {
    n := KnownIsPrefix(obs, now);
    forall i | 0 <= i < |obs| ensures i < n <==> obs[i].at <= now {
      assert i < n - 1 ==> Ordered(obs, i, n - 1);
      assert n < i ==> Ordered(obs, n, i);
    }
  }

  lemma AnswerCount(obs: seq<Observation>, n: nat, from: int, now: int)
    requires n <= |obs| && forall i :: 0 <= i < |obs| ==> (i < n <==> obs[i].at <= now)
    ensures CountAfter(obs[..n], from) == CoveredCount(obs, from, now)
  {
    CountIsCovered(obs[..n], from, now);
    CoveredInPrefix(obs, n, from, now);
  }

  lemma AnswerPrice(c: Config, obs: seq<Observation>, now: int)
    requires ValidConfig(c) && AverageAt(c, obs, now).Ok?
    ensures var r := AverageAt(c, obs, now).value;
      r.coverage > 0 && r.price * (r.coverage as real) == Integral(obs, now - r.coverage, now)
  {
    var known := Known(obs, now);
    var start := CoverageStart(c, known, now);
    IntegralOfKnown(obs, now, start, now);
    QuotientTimes(Integral(known, start, now), (now - start) as real);
    assert now - (now - start) == start;
  }

  lemma AnswerFields(c: Config, obs: seq<Observation>, now: int, n: nat)
    requires ValidConfig(c) && AverageAt(c, obs, now).Ok? && 0 < n <= |obs| && Known(obs, now) == obs[..n]
    ensures var r := AverageAt(c, obs, now).value;
      && now - obs[n - 1].at <= c.maxStaleness && r.lastSlot == obs[n - 1].slot && r.lastAt == obs[n - 1].at
      && r.windowStart == now - c.window && r.windowEnd == now
      && r.coverage == (if now - obs[0].at < c.window then now - obs[0].at else c.window) >= c.minCoverage
      && r.count == 1 + CountAfter(obs[..n], now - r.coverage)
  {
  }

  lemma AnswerTells(c: Config, obs: seq<Observation>, now: int)
    requires ValidConfig(c) && Increasing(obs) && AverageAt(c, obs, now).Ok?
    ensures Tells(c, obs, now, AverageAt(c, obs, now).value)
  {
    var n := KnownEnds(obs, now);
    var r := AverageAt(c, obs, now).value;
    assert n > 0 && LatestAt(obs, now, n - 1);
    AnswerFields(c, obs, now, n);
    AnswerCount(obs, n, now - r.coverage, now);
    AnswerPrice(c, obs, now);
  }

  /** TWAPAt by the observations it has: it answers exactly when there is an observation, the latest is
      fresh, and enough time is covered; each refusal names what is missing. */
  lemma QueryIff(c: Config, obs: seq<Observation>, now: int)
    requires ValidConfig(c) && Increasing(obs)
    ensures var r := AverageAt(c, obs, now);
      && (r.Ok? ==> Tells(c, obs, now, r.value))
      && (r == Err(ErrStaleTWAP) <==> exists i :: LatestAt(obs, now, i) && now - obs[i].at > c.maxStaleness)
      && (r == Err(ErrInsufficientTWAPHistory) <==>
            || NoneYet(obs, now)
            || (exists i :: LatestAt(obs, now, i) && now - obs[i].at <= c.maxStaleness && now - obs[0].at < c.minCoverage))
      && (r.Err? ==> r.error in {ErrStaleTWAP, ErrInsufficientTWAPHistory})
  {
    var n := KnownEnds(obs, now);
    if AverageAt(c, obs, now).Ok? {
      AnswerTells(c, obs, now);
    }
    if n > 0 {
      assert LatestAt(obs, now, n - 1) && obs[0] in obs;
      forall i | LatestAt(obs, now, i) ensures i == n - 1 {
      }
    }
  }

  // ----- what is observed -----

  /** An observation is refused as invalid without a time or a positive price, as out of order when it
      does not follow the newest in slot and in time, and otherwise accepted. */
  lemma ObserveRefusals(e: Engine, slot: uint64, at: int, value: Option<real>)
    requires ValidConfig(e.config)
    ensures var r := Observe(e, slot, at, value);
      var proper := at != ZERO_TIME && value.Some? && value.value > 0.0;
      && (r == Err(ErrInvalidTWAPObservation) <==> !proper)
      && (r == Err(ErrOutOfOrderTWAP) <==>
            && proper && e.observations != []
            && (slot <= e.observations[|e.observations| - 1].slot || at <= e.observations[|e.observations| - 1].at))
      && (r.Err? ==> r.error in {ErrInvalidTWAPObservation, ErrOutOfOrderTWAP})
  {
  }

  // ----- pruning -----

  lemma {:induction false} KnownAll(log: seq<Observation>, now: int)
    requires log != [] ==> log[|log| - 1].at <= now
    ensures Known(log, now) == log
  {
  }

  /** When nothing the window needs was pruned, pruned and unpruned answers coincide. */
  lemma SameAverage(c: Config, pruned: seq<Observation>, obs: seq<Observation>, now: int)
    requires ValidConfig(c) && Increasing(pruned + obs) && obs != []
    requires obs[|obs| - 1].at <= now && obs[0].at <= now - c.window
    ensures AverageAt(c, pruned + obs, now) == AverageAt(c, obs, now)
  {
    var log, start := pruned + obs, now - c.window;
    SuffixIncreasing(pruned, obs);
    assert log[|log| - 1] == obs[|obs| - 1];
    assert pruned != [] ==> Ordered(log, 0, |pruned|);
    assert CoverageStart(c, log, now) == start == CoverageStart(c, obs, now);
    RetainedIntegral(pruned, obs, start, now);
    CountAfterSplit(pruned, obs, start);
    forall i | 0 <= i < |pruned| ensures pruned[i].at <= start {
      assert Ordered(log, i, |pruned|);
    }
    CountAfterNone(pruned, start);
  }

  /** When part of the window was pruned, the answers coincide only if both engines refuse. */
  lemma DifferentAverage(c: Config, pruned: seq<Observation>, obs: seq<Observation>, now: int)
    requires ValidConfig(c) && Increasing(pruned + obs) && obs != [] && pruned != []
    requires obs[|obs| - 1].at <= now && obs[0].at > now - c.window
    ensures AverageAt(c, pruned + obs, now) == AverageAt(c, obs, now) <==>
            now - obs[|obs| - 1].at > c.maxStaleness || now - CoverageStart(c, pruned + obs, now) < c.minCoverage
  {
    var log := pruned + obs;
    assert log[|log| - 1] == obs[|obs| - 1] && log[|pruned|] == obs[0] && Ordered(log, 0, |pruned|);
    KnownAll(log, now);
    KnownAll(obs, now);
    assert CoverageStart(c, log, now) < CoverageStart(c, obs, now);
  }

  /** For a query at or after the newest observation, pruning changes nothing exactly when nothing
      was pruned, or the window starts no earlier than the oldest retained observation, or both
      engines refuse: the price is stale, or even the whole history covers too little time. */
  lemma PruningInvisibleIff(c: Config, ops: seq<Op>, now: int)
    requires ValidConfig(c)
    requires var log := Run(c, ops).log; log != [] && log[|log| - 1].at <= now
    ensures var s := Run(c, ops);
            var obs := s.engine.observations;
            && obs != []
            && (AverageAt(c, s.log, now) == AverageAt(c, obs, now) <==>
                  || !s.engine.historyPruned
                  || obs[0].at <= now - c.window
                  || now - s.log[|s.log| - 1].at > c.maxStaleness
                  || now - CoverageStart(c, s.log, now) < c.minCoverage)
  {
    RunHolds(c, ops);
    var s := Run(c, ops);
    var pruned :| HoldsAfter(s, pruned);
    var obs := s.engine.observations;
    assert s.log[|s.log| - 1] == obs[|obs| - 1];
    if pruned == [] {
      assert s.log == obs;
    } else if obs[0].at <= now - c.window {
      SameAverage(c, pruned, obs, now);
    } else {
      DifferentAverage(c, pruned, obs, now);
    }
  }

  /** Seen from the engine alone: an answer it gives is that of a never-pruned engine exactly when it
      has pruned nothing or its oldest observation is not after the window start. */
  lemma AnswerIsUnprunedIff(c: Config, ops: seq<Op>, now: int)
    requires ValidConfig(c)
    requires var obs := Run(c, ops).engine.observations; obs != [] && obs[|obs| - 1].at <= now
    requires AverageAt(c, Run(c, ops).engine.observations, now).Ok?
    ensures var s := Run(c, ops);
      AverageAt(c, s.log, now) == AverageAt(c, s.engine.observations, now) <==>
      !s.engine.historyPruned || s.engine.observations[0].at <= now - c.window
  {
    RunHolds(c, ops);
    var s := Run(c, ops);
    var pruned :| HoldsAfter(s, pruned);
    var obs := s.engine.observations;
    assert s.log == pruned + obs && s.log[|s.log| - 1] == obs[|obs| - 1];
    KnownAll(obs, now);
    assert pruned != [] ==> Ordered(s.log, 0, |pruned|) && s.log[0].at < obs[0].at;
    PruningInvisibleIff(c, ops, now);
  }

  /** Without the limit on the number of observations, an engine that only prunes by time answers
      every query at or after the latest observed time as one that never prunes. */
  lemma TimePruningInvisible(c: Config, ops: seq<Op>, now: int)
    requires ValidConfig(c) && !Run(c, ops).limited && (Run(c, ops).log != [] ==> now >= Run(c, ops).high)
    ensures AverageAt(c, Run(c, ops).log, now) == AverageAt(c, Run(c, ops).engine.observations, now)
  {
    RunHolds(c, ops);
    var s := Run(c, ops);
    var pruned :| HoldsAfter(s, pruned);
    var obs := s.engine.observations;
    if s.log != [] {
      assert s.log[|s.log| - 1] == obs[|obs| - 1];
      PruningInvisibleIff(c, ops, now);
    }
  }

  // A run that shows the difference: three observations, the first pruned, the last rolled back.

  const SAMPLE_CONFIG := Config(10, 1, 100, 8)
  const O1 := Observation(1, 1, 1.0)
  const O2 := Observation(2, 15, 2.0)
  const O3 := Observation(3, 30, 3.0)
  const SAMPLE_OPS := [Observing(1, 1, Some(1.0)), Observing(2, 15, Some(2.0)), Observing(3, 30, Some(3.0)), RollingBack(2)]

  lemma RunNext(c: Config, ops: seq<Op>, n: nat)
    requires ValidConfig(c) && n < |ops|
    ensures Run(c, ops[..n + 1]) == Step(Run(c, ops[..n]), ops[n])
  {
    assert ops[..n + 1][..n] == ops[..n];
  }

  lemma FirstStep()
    ensures Step(Start(SAMPLE_CONFIG), SAMPLE_OPS[0]) == Shadow(Engine(SAMPLE_CONFIG, [O1], false), [O1], 1, false)
  {
    assert [] + [O1] == [O1] && [O1][0..] == [O1];
    assert NotAfter([O1], -9) == 0;
  }

  lemma SecondStep()
    ensures Step(Shadow(Engine(SAMPLE_CONFIG, [O1], false), [O1], 1, false), SAMPLE_OPS[1])
            == Shadow(Engine(SAMPLE_CONFIG, [O1, O2], false), [O1, O2], 15, false)
  {
    assert [O1] + [O2] == [O1, O2] && [O1, O2][0..] == [O1, O2] && [O1, O2][1..] == [O2];
    assert NotAfter([O2], 5) == 0 && NotAfter([O1, O2], 5) == 1;
  }

  lemma ThirdStep()
    ensures Step(Shadow(Engine(SAMPLE_CONFIG, [O1, O2], false), [O1, O2], 15, false), SAMPLE_OPS[2])
            == Shadow(Engine(SAMPLE_CONFIG, [O2, O3], true), [O1, O2, O3], 30, false)
  {
    assert [O1, O2] + [O3] == [O1, O2, O3] && [O1, O2, O3][1..] == [O2, O3] && [O2, O3][1..] == [O3];
    assert NotAfter([O3], 20) == 0 && NotAfter([O2, O3], 20) == 1 && NotAfter([O1, O2, O3], 20) == 2;
  }

  lemma FourthStep()
    ensures Step(Shadow(Engine(SAMPLE_CONFIG, [O2, O3], true), [O1, O2, O3], 30, false), SAMPLE_OPS[3])
            == Shadow(Engine(SAMPLE_CONFIG, [O2], true), [O1, O2], 30, false)
  {
    assert [O2, O3][..1] == [O2] && UpToSlot([O2], 2) == [O2] && UpToSlot([O2, O3], 2) == [O2];
    assert [O1, O2, O3][..2] == [O1, O2] && UpToSlot([O1, O2], 2) == [O1, O2] && UpToSlot([O1, O2, O3], 2) == [O1, O2];
  }

  /** After a rollback, a query between the newest observation and the latest observed time can tell
      the difference. */
  lemma RollbackMakesPruningVisible()
    ensures var s := Run(SAMPLE_CONFIG, SAMPLE_OPS);
            !s.limited && AverageAt(SAMPLE_CONFIG, s.log, 16) != AverageAt(SAMPLE_CONFIG, s.engine.observations, 16)
  {
    var c, ops := SAMPLE_CONFIG, SAMPLE_OPS;
    assert ops[..4] == ops && ops[..0] == [];
    RunNext(c, ops, 0);
    RunNext(c, ops, 1);
    RunNext(c, ops, 2);
    RunNext(c, ops, 3);
    FirstStep();
    SecondStep();
    ThirdStep();
    FourthStep();
    PruningInvisibleIff(c, ops, 16);
  }

  // ----- rollback -----

  /** A rollback is refused exactly when history was pruned and nothing retained is at or below the
      slot. Otherwise the retained observations are a suffix of the rolled-back history that
      contains its newest observation whenever it has one. */
  lemma RollbackKeepsNewest(c: Config, ops: seq<Op>, slot: uint64)
    requires ValidConfig(c)
    ensures var s := Run(c, ops);
            var r := Rollback(s.engine, slot);
            var cut := UpToSlot(s.log, slot);
            && (r.Err? <==> s.log != s.engine.observations && forall o :: o in s.engine.observations ==> o.slot > slot)
            && (r.Ok? ==>
                  && (exists pruned :: cut == pruned + r.value.observations)
                  && (cut != [] ==> r.value.observations != [])
                  && r.value.historyPruned == s.engine.historyPruned)
  {
    RunHolds(c, ops);
    var s := Run(c, ops);
    var pruned :| HoldsAfter(s, pruned);
    SuffixIncreasing(pruned, s.engine.observations);
    NothingAtOrBelow(s.engine.observations, slot);
    assert |s.log| == |pruned| + |s.engine.observations|;
    if Rollback(s.engine, slot).Ok? {
      RollbackHolds(s, pruned, slot);
      assert UpToSlot(s.log, slot) == pruned + Rollback(s.engine, slot).value.observations;
    }
  }

  /** What stays are exactly the retained observations at or below the slot, in their order; a refusal
      needs history that was pruned and a slot before everything retained. */
  lemma RollbackKeepsExactly(c: Config, ops: seq<Op>, slot: uint64)
    requires ValidConfig(c)
    ensures var obs, r := Run(c, ops).engine.observations, Rollback(Run(c, ops).engine, slot);
      && (r == Err(ErrTWAPRollbackUnavailable) <==>
            Run(c, ops).engine.historyPruned && forall o :: o in obs ==> o.slot > slot)
      && (r.Err? ==> r == Err(ErrTWAPRollbackUnavailable))
      && (r.Ok? ==>
            && |r.value.observations| <= |obs| && r.value.observations == obs[..|r.value.observations|]
            && (forall o :: o in r.value.observations <==> o in obs && o.slot <= slot)
            && r.value.config == c)
  {
    RunHolds(c, ops);
    var s := Run(c, ops);
    var obs := s.engine.observations;
    var pruned :| HoldsAfter(s, pruned);
    SuffixIncreasing(pruned, obs);
    NothingAtOrBelow(obs, slot);
    CutMembers(obs, slot);
  }

  lemma CutMembers(obs: seq<Observation>, slot: uint64)
    requires Increasing(obs)
    ensures var cut := UpToSlot(obs, slot);
      && |cut| <= |obs| && cut == obs[..|cut|]
      && (forall o :: o in cut <==> o in obs && o.slot <= slot)
      && (obs != [] && slot >= obs[|obs| - 1].slot ==> cut == obs)
  {
    var n := UpToSlotIsPrefix(obs, slot);
    assert obs == obs[..n] + obs[n..];
  }

  lemma NothingAtOrBelow(obs: seq<Observation>, slot: uint64)
    requires Increasing(obs)
    ensures (forall o :: o in obs ==> o.slot > slot) <==> obs == [] || slot < obs[0].slot
    ensures obs != [] && slot < obs[0].slot ==> slot < obs[|obs| - 1].slot
  {
    if obs != [] {
      assert obs[0] in obs;
      forall i | 0 < i < |obs| ensures obs[0].slot < obs[i].slot {
        assert Ordered(obs, 0, i);
      }
    }
  }

  // ----- snapshots -----

  lemma ReplayStep(c: Config, obs: seq<Observation>, n: nat, historyPruned: bool)
    requires ValidConfig(c) && Increasing(obs) && Positive(obs) && n < |obs| <= c.maxObservations
    requires |obs| > 1 ==> obs[1].at > obs[|obs| - 1].at - c.window
    ensures Observe(Engine(c, obs[..n], historyPruned), obs[n].slot, obs[n].at, Some(obs[n].price))
            == Ok(Engine(c, obs[..n + 1], historyPruned))
  {
    var all := obs[..n + 1];
    assert obs[..n] + [obs[n]] == all;
    IncreasingPrefix(obs, n + 1);
    NotAfterProperties(all, obs[n].at - c.window);
    assert n > 0 ==> Ordered(obs, n - 1, n);
    assert n < |obs| - 1 ==> Ordered(obs, n, |obs| - 1);
    assert all[0..] == all;
  }

  lemma {:induction false} ReplayAll(c: Config, obs: seq<Observation>, n: nat, historyPruned: bool)
    requires ValidConfig(c) && Increasing(obs) && Positive(obs) && n <= |obs| <= c.maxObservations
    requires |obs| > 1 ==> obs[1].at > obs[|obs| - 1].at - c.window
    ensures Replay(Engine(c, [], historyPruned), obs[..n]) == Ok(Engine(c, obs[..n], historyPruned))
  {
    if n > 0 {
      assert obs[..n][..n - 1] == obs[..n - 1];
      ReplayAll(c, obs, n - 1, historyPruned);
      ReplayStep(c, obs, n - 1, historyPruned);
    }
  }

  /** Restoring any reachable snapshot by replay prunes nothing and yields the same engine. */
  lemma SnapshotRestoresEngine(c: Config, ops: seq<Op>)
    requires ValidConfig(c)
    ensures FromState(Run(c, ops).engine) == Ok(Run(c, ops).engine)
  {
    RunHolds(c, ops);
    var s := Run(c, ops);
    var pruned :| HoldsAfter(s, pruned);
    var obs := s.engine.observations;
    SuffixIncreasing(pruned, obs);
    assert Positive(obs) by {
      assert forall i :: 0 <= i < |obs| ==> obs[i] == s.log[|pruned| + i];
    }
    assert obs[..|obs|] == obs;
    ReplayAll(c, obs, |obs|, s.engine.historyPruned);
  }
}
