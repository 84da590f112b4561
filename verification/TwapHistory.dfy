/** The bounded engine against the full logical history. A run of observations and rollbacks is
    shadowed by the log that is never pruned, the latest time observed since it was last empty, and whether the limit
    on the number of observations ever dropped anything that time pruning would have kept. */
module TwapHistory {
  import opened Words
  import opened TwapSpec

  datatype Op = Observing(slot: uint64, at: int, value: Option<real>) | RollingBack(slot: uint64)

  datatype Shadow = Shadow(engine: Engine, log: seq<Observation>, high: int, limited: bool)

  function Start(c: Config): Shadow { Shadow(Engine(c, [], false), [], 0, false) }

  /** Keeping by time alone would have kept more. */
  predicate Limits(e: Engine, slot: uint64, at: int, price: real)
    requires ValidConfig(e.config)
  {
    var all := e.observations + [Observation(slot, at, price)];
    KeepFrom(e.config, all, at) != KeepFrom(e.config.(maxObservations := |all|), all, at)
  }

  function Step(s: Shadow, op: Op): Shadow
    requires ValidConfig(s.engine.config)
    ensures Step(s, op).engine.config == s.engine.config
  {
    match op
    case Observing(slot, at, value) =>
      (match Observe(s.engine, slot, at, value)
       case Err(_) => s
       case Ok(e) =>
         Shadow(e, s.log + [Observation(slot, at, value.value)], if s.log == [] then at else Max(s.high, at),
                s.limited || Limits(s.engine, slot, at, value.value)))
    case RollingBack(slot) =>
      match Rollback(s.engine, slot)
      case Err(_) => s
      case Ok(e) => s.(engine := e, log := UpToSlot(s.log, slot))
  }

  function Run(c: Config, ops: seq<Op>): Shadow
    requires ValidConfig(c)
    ensures Run(c, ops).engine.config == c
  {
    if ops == [] then Start(c) else Step(Run(c, ops[..|ops| - 1]), ops[|ops| - 1])
  }

  // ----- the invariant -----

  /** The engine retains the log after `pruned`: all of it when nothing was pruned, and its newest
      observation whenever there is one. */
  ghost predicate HoldsAfter(s: Shadow, pruned: seq<Observation>) {
    && Splits(s.log, pruned, s.engine.observations)
    && (s.log != [] ==> s.engine.observations != [])
    && Bounded(s.engine, pruned != [], s.high, s.limited)
  }

  ghost predicate Splits(log: seq<Observation>, pruned: seq<Observation>, obs: seq<Observation>) {
    log == pruned + obs && Increasing(log) && Positive(log)
  }

  ghost predicate Bounded(e: Engine, anyPruned: bool, high: int, limited: bool) {
    var obs, c := e.observations, e.config;
    && (e.historyPruned <==> anyPruned)
    && (anyPruned ==> obs != [])
    && (obs != [] ==> obs[|obs| - 1].at <= high)
    && |obs| <= c.maxObservations
    && (|obs| > 1 ==> obs[1].at > obs[|obs| - 1].at - c.window)
    && (anyPruned && !limited ==> obs[0].at <= high - c.window)
  }

  ghost predicate Retains(s: Shadow) { exists pruned :: HoldsAfter(s, pruned) }

  lemma SuffixIncreasing(a: seq<Observation>, b: seq<Observation>)
    requires Increasing(a + b)
    ensures Increasing(b)
  {
    IncreasingSuffix(a + b, |a|);
    assert (a + b)[|a|..] == b;
  }

  lemma LogGrows(log: seq<Observation>, o: Observation)
    requires Increasing(log) && Positive(log) && InOrder(log, o.slot, o.at)
    requires o.price > 0.0 && o.at != ZERO_TIME
    ensures Increasing(log + [o]) && Positive(log + [o])
  {
    IncreasingAppended(log, o);
  }

  lemma KeepFromWindow(c: Config, all: seq<Observation>, latest: int)
    requires ValidConfig(c) && Increasing(all) && all != [] && all[|all| - 1].at == latest
    ensures var kept := all[KeepFrom(c, all, latest)..];
            && 0 < |kept| <= c.maxObservations
            && kept[|kept| - 1] == all[|all| - 1]
            && (|kept| > 1 ==> kept[1].at > latest - c.window)
            && (KeepFrom(c, all, latest) > 0 && KeepFrom(c, all, latest) == KeepFrom(c.(maxObservations := |all|), all, latest)
                ==> kept[0].at <= latest - c.window)
  {
    NotAfterProperties(all, latest - c.window);
  }

  lemma Regroup(a: seq<Observation>, b: seq<Observation>, o: Observation, keep: nat)
    requires keep <= |b| + 1
    ensures (a + b) + [o] == a + (b + [o])
    ensures (a + b) + [o] == (a + (b + [o])[..keep]) + (b + [o])[keep..]
    ensures a + (b + [o])[..keep] == [] <==> a == [] && keep == 0
    ensures keep == 0 && b != [] ==> (b + [o])[keep..][0] == b[0]
  {
  }

  lemma ObserveBounded(e: Engine, anyPruned: bool, high: int, limited: bool, slot: uint64, at: int, price: real)
    requires ValidConfig(e.config) && Bounded(e, anyPruned, high, limited)
    requires Observe(e, slot, at, Some(price)).Ok? && Increasing(e.observations + [Observation(slot, at, price)])
    ensures Bounded(Observe(e, slot, at, Some(price)).value,
                    anyPruned || KeepFrom(e.config, e.observations + [Observation(slot, at, price)], at) > 0,
                    if e.observations == [] then at else Max(high, at),
                    limited || Limits(e, slot, at, price))
  {
    var all := e.observations + [Observation(slot, at, price)];
    KeepFromWindow(e.config, all, at);
  }

  lemma SplitsAfterObserve(log: seq<Observation>, pruned: seq<Observation>, obs: seq<Observation>, o: Observation, keep: nat)
    requires Splits(log, pruned, obs) && (log != [] ==> obs != []) && InOrder(obs, o.slot, o.at)
    requires o.price > 0.0 && o.at != ZERO_TIME && keep <= |obs| + 1
    ensures Splits(log + [o], pruned + (obs + [o])[..keep], (obs + [o])[keep..])
    ensures Increasing(obs + [o])
    ensures log == [] <==> obs == []
    ensures pruned + (obs + [o])[..keep] == [] <==> pruned == [] && keep == 0
    ensures keep <= |obs| ==> (obs + [o])[keep..] != []
  {
    assert obs != [] ==> log[|log| - 1] == obs[|obs| - 1];
    LogGrows(log, o);
    Regroup(pruned, obs, o, keep);
    SuffixIncreasing(pruned, obs + [o]);
  }

  lemma ObserveHolds(s: Shadow, pruned: seq<Observation>, op: Op) returns (pruned': seq<Observation>)
    requires HoldsAfter(s, pruned) && ValidConfig(s.engine.config)
    requires op.Observing? && Observe(s.engine, op.slot, op.at, op.value).Ok?
    ensures HoldsAfter(Step(s, op), pruned')
  {
    var o := Observation(op.slot, op.at, op.value.value);
    var obs := s.engine.observations;
    var keep := KeepFrom(s.engine.config, obs + [o], op.at);
    pruned' := pruned + (obs + [o])[..keep];
    SplitsAfterObserve(s.log, pruned, obs, o, keep);
    ObserveBounded(s.engine, pruned != [], s.high, s.limited, op.slot, op.at, op.value.value);
  }

  lemma {:induction false} CutAfter(pruned: seq<Observation>, obs: seq<Observation>, slot: uint64)
    requires Increasing(pruned + obs)
    requires pruned != [] ==> obs != [] && obs[0].slot <= slot
    ensures UpToSlot(pruned + obs, slot) == pruned + UpToSlot(obs, slot)
  {
    var log := pruned + obs;
    if obs == [] {
    } else if obs[|obs| - 1].slot > slot {
      assert log[..|log| - 1] == pruned + obs[..|obs| - 1];
      IncreasingPrefix(log, |log| - 1);
      CutAfter(pruned, obs[..|obs| - 1], slot);
    }
  }

  lemma {:induction false} CutIsPrefix(obs: seq<Observation>, slot: uint64) returns (m: nat)
    ensures m <= |obs| && UpToSlot(obs, slot) == obs[..m]
    ensures obs != [] && obs[0].slot <= slot ==> m > 0
  {
    if obs != [] && obs[|obs| - 1].slot > slot {
      m := CutIsPrefix(obs[..|obs| - 1], slot);
      assert obs[..|obs| - 1][..m] == obs[..m];
    } else {
      m := |obs|;
      assert obs[..m] == obs;
    }
  }

  lemma PrefixIncreasing(a: seq<Observation>, b: seq<Observation>, m: nat)
    requires Increasing(a + b) && Positive(a + b) && m <= |b|
    ensures Increasing(a + b[..m]) && Positive(a + b[..m])
  {
    assert a + b[..m] == (a + b)[..|a| + m];
    IncreasingPrefix(a + b, |a| + m);
  }

  lemma RollbackBounded(e: Engine, anyPruned: bool, high: int, limited: bool, slot: uint64)
    requires Bounded(e, anyPruned, high, limited) && Rollback(e, slot).Ok? && Increasing(e.observations)
    ensures Bounded(Rollback(e, slot).value, anyPruned, high, limited)
  {
    var obs := e.observations;
    var m := CutIsPrefix(obs, slot);
    assert 0 < m < |obs| ==> Ordered(obs, m - 1, |obs| - 1);
    assert |obs| > 1 ==> Ordered(obs, 0, |obs| - 1);
  }

  lemma SplitsAfterRollback(log: seq<Observation>, pruned: seq<Observation>, obs: seq<Observation>, slot: uint64)
    requires Splits(log, pruned, obs) && (pruned != [] ==> obs != [])
    requires pruned != [] ==> slot >= obs[0].slot || slot >= obs[|obs| - 1].slot
    ensures Splits(UpToSlot(log, slot), pruned, UpToSlot(obs, slot))
    ensures Increasing(obs)
  {
    SuffixIncreasing(pruned, obs);
    assert |obs| > 1 ==> Ordered(obs, 0, |obs| - 1);
    CutAfter(pruned, obs, slot);
    var m := CutIsPrefix(obs, slot);
    PrefixIncreasing(pruned, obs, m);
  }

  lemma RollbackHolds(s: Shadow, pruned: seq<Observation>, slot: uint64)
    requires HoldsAfter(s, pruned) && ValidConfig(s.engine.config)
    requires Rollback(s.engine, slot).Ok?
    ensures HoldsAfter(Step(s, RollingBack(slot)), pruned)
  {
    SplitsAfterRollback(s.log, pruned, s.engine.observations, slot);
    RollbackBounded(s.engine, pruned != [], s.high, s.limited, slot);
  }

  lemma StepHolds(s: Shadow, op: Op)
    requires Retains(s) && ValidConfig(s.engine.config)
    ensures Retains(Step(s, op))
  {
    var pruned :| HoldsAfter(s, pruned);
    if Step(s, op) != s {
      match op {
        case Observing(_, _, _) =>
          var pruned' := ObserveHolds(s, pruned, op);
        case RollingBack(slot) =>
          RollbackHolds(s, pruned, slot);
      }
    }
  }

  /** The retained observations are a suffix of the logical history in every run. */
  lemma {:induction false} RunHolds(c: Config, ops: seq<Op>)
    requires ValidConfig(c)
    ensures Retains(Run(c, ops))
  {
    if ops == [] {
      assert HoldsAfter(Start(c), []);
    } else {
      RunHolds(c, ops[..|ops| - 1]);
      StepHolds(Run(c, ops[..|ops| - 1]), ops[|ops| - 1]);
    }
  }

  /** After every run an accepted observation leaves the anchor of the window and everything later when
      that fits the limit, and otherwise exactly the newest observations up to the limit; the flag
      says whether anything was ever dropped. */
  lemma ObservationRetains(c: Config, ops: seq<Op>, slot: uint64, at: int, value: Option<real>)
    requires ValidConfig(c) && Observe(Run(c, ops).engine, slot, at, value).Ok?
    ensures var e, next := Run(c, ops).engine, Observe(Run(c, ops).engine, slot, at, value).value;
      var all := e.observations + [Observation(slot, at, value.value)];
      && IsRetained(c, all, next.observations)
      && next.historyPruned == (e.historyPruned || |next.observations| < |all|)
  {
    RunHolds(c, ops);
    var s := Run(c, ops);
    var pruned :| HoldsAfter(s, pruned);
    SuffixIncreasing(pruned, s.engine.observations);
    IncreasingAppended(s.engine.observations, Observation(slot, at, value.value));
    KeepFromRetains(c, s.engine.observations + [Observation(slot, at, value.value)]);
  }
}
