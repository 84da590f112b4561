/** Runs of the watch manager: which registrations are in force after any sequence of
    registrations, removals, expirations and a stop. */
module WatchRuns {
  import opened Words
  import opened WatchesSpec

  datatype Op =
    | Register(target: Target, callback: Option<Callback>, ttl: int, now: int)
    | Unregister(id: string)
    | Expire(now: int)
    | Stop

  datatype State = State(live: seq<Registration>, nextId: nat, stopped: bool)

  function Apply(s: State, op: Op): State {
    match op
    case Register(target, callback, ttl, now) =>
      if s.stopped then s
      else State(s.live + [Registration(s.nextId + 1, target, callback, ttl, now)], s.nextId + 1, false)
    case Unregister(id) => s.(live := Keep(s.live, {id}))
    case Expire(now) => s.(live := Unexpired(s.live, now))
    case Stop => s.(live := [], stopped := true)
  }

  function Run(ops: seq<Op>): State {
    if ops == [] then State([], 0, false) else Apply(Run(ops[..|ops| - 1]), ops[|ops| - 1])
  }

  // ----- in force -----

  function Registrations(ops: seq<Op>): nat {
    if ops == [] then 0 else Registrations(ops[..|ops| - 1]) + (if ops[|ops| - 1].Register? then 1 else 0)
  }

  /** What the k-th operation registers, if the manager is still running. */
  function RegisteredAt(ops: seq<Op>, k: nat): Registration
    requires k < |ops| && ops[k].Register?
  {
    Registration(Registrations(ops[..k]) + 1, ops[k].target, ops[k].callback, ops[k].ttl, ops[k].now)
  }

  predicate Drops(op: Op, r: Registration) {
    match op
    case Register(_, _, _, _) => false
    case Unregister(id) => r.Id() == id
    case Expire(now) => r.ttl > 0 && now - r.createdAt > r.ttl
    case Stop => true
  }

  /** Registered before any stop, and dropped by nothing since. */
  ghost predicate InForce(ops: seq<Op>, k: nat) {
    && k < |ops| && ops[k].Register? && Stop !in ops[..k]
    && forall j :: k < j < |ops| ==> !Drops(ops[j], RegisteredAt(ops, k))
  }

  ghost predicate InForceAs(ops: seq<Op>, k: nat, r: Registration) {
    InForce(ops, k) && RegisteredAt(ops, k) == r
  }

  lemma {:induction false} KeepSome(live: seq<Registration>, dropped: set<string>, r: Registration)
    ensures r in Keep(live, dropped) <==> r in live && r.Id() !in dropped
  {
    if live != [] {
      assert live == live[..|live| - 1] + [live[|live| - 1]];
      KeepSome(live[..|live| - 1], dropped, r);
    }
  }

  lemma {:induction false} UnexpiredSome(live: seq<Registration>, now: int, r: Registration)
    ensures r in Unexpired(live, now) <==> r in live && !r.ToWatch().Expired(now)
  {
    if live != [] {
      assert live == live[..|live| - 1] + [live[|live| - 1]];
      UnexpiredSome(live[..|live| - 1], now, r);
    }
  }

  lemma {:induction false} UnexpiredNumbered(live: seq<Registration>, now: int, nextId: nat)
    requires Numbered(live, nextId)
    ensures Numbered(Unexpired(live, now), nextId)
  {
    if live != [] {
      var rest, last := live[..|live| - 1], live[|live| - 1];
      UnexpiredNumbered(rest, now, last.number - 1);
      var kept := Unexpired(rest, now);
      assert kept + [] == kept;
      if last.ToWatch().Expired(now) {
        NumberedMore(kept, last.number - 1, nextId);
      } else {
        NumberedAppend(kept, last, nextId);
      }
    }
  }

  lemma ApplyNumbered(s: State, op: Op)
    requires Numbered(s.live, s.nextId)
    ensures Numbered(Apply(s, op).live, Apply(s, op).nextId)
  {
    match op {
      case Register(target, callback, ttl, now) =>
        NumberedAppend(s.live, Registration(s.nextId + 1, target, callback, ttl, now), s.nextId + 1);
      case Unregister(id) => KeepNumbered(s.live, {id}, s.nextId);
      case Expire(now) => UnexpiredNumbered(s.live, now, s.nextId);
      case Stop =>
    }
  }

  lemma {:induction false} RunNumbered(ops: seq<Op>)
    ensures Numbered(Run(ops).live, Run(ops).nextId)
    ensures !Run(ops).stopped ==> Run(ops).nextId == Registrations(ops)
  {
    if ops != [] {
      RunNumbered(ops[..|ops| - 1]);
      ApplyNumbered(Run(ops[..|ops| - 1]), ops[|ops| - 1]);
    }
  }

  lemma ApplyStops(s: State, op: Op)
    ensures Apply(s, op).stopped <==> s.stopped || op == Stop
  {
  }

  lemma {:induction false} RunStopped(ops: seq<Op>)
    ensures Run(ops).stopped <==> Stop in ops
  {
    if ops != [] {
      var rest, last := ops[..|ops| - 1], ops[|ops| - 1];
      assert ops == rest + [last];
      RunStopped(rest);
      ApplyStops(Run(rest), last);
    }
  }

  /** One operation more: who stays, and who is new. */
  lemma ApplyLive(s: State, op: Op, r: Registration)
    ensures r in Apply(s, op).live <==>
            (r in s.live && !Drops(op, r)) ||
            (op.Register? && !s.stopped && r == Registration(s.nextId + 1, op.target, op.callback, op.ttl, op.now))
  {
    match op {
      case Register(_, _, _, _) =>
      case Unregister(id) => KeepSome(s.live, {id}, r);
      case Expire(now) => UnexpiredSome(s.live, now, r);
      case Stop =>
    }
  }

  lemma InForceEarlier(ops: seq<Op>, k: nat, r: Registration)
    requires ops != [] && k < |ops| - 1
    ensures InForceAs(ops, k, r) <==> InForceAs(ops[..|ops| - 1], k, r) && !Drops(ops[|ops| - 1], r)
  {
    var rest := ops[..|ops| - 1];
    assert rest[..k] == ops[..k];
    if InForceAs(rest, k, r) && !Drops(ops[|ops| - 1], r) {
      forall j | k < j < |ops| ensures !Drops(ops[j], RegisteredAt(ops, k)) {
        assert j < |rest| ==> rest[j] == ops[j];
      }
    }
    if InForceAs(ops, k, r) {
      forall j | k < j < |rest| ensures !Drops(rest[j], RegisteredAt(rest, k)) {
        assert rest[j] == ops[j];
      }
    }
  }

  lemma InForceLast(ops: seq<Op>, r: Registration)
    requires ops != []
    ensures InForceAs(ops, |ops| - 1, r) <==>
            var s, op := Run(ops[..|ops| - 1]), ops[|ops| - 1];
            op.Register? && !s.stopped && r == Registration(s.nextId + 1, op.target, op.callback, op.ttl, op.now)
  {
    RunNumbered(ops[..|ops| - 1]);
    RunStopped(ops[..|ops| - 1]);
  }

  /** After any run the live registrations are exactly those in force. */
  lemma {:induction false} LiveIsInForce(ops: seq<Op>, r: Registration)
    ensures r in Run(ops).live <==> exists k: nat :: InForceAs(ops, k, r)
  {
    if ops != [] {
      var rest, op := ops[..|ops| - 1], ops[|ops| - 1];
      LiveIsInForce(rest, r);
      ApplyLive(Run(rest), op, r);
      InForceLast(ops, r);
      forall k: nat | k < |ops| - 1
        ensures InForceAs(ops, k, r) <==> InForceAs(rest, k, r) && !Drops(op, r)
      {
        InForceEarlier(ops, k, r);
      }
    }
  }

  /** After any run a callback is selected for a target exactly when a registration of it for that
      target is in force; and no watch is selected twice. */
  lemma SelectedExactlyWhenInForce(ops: seq<Op>, target: Target, c: Call)
    ensures c in Calls(Run(ops).live, target) <==>
            exists k: nat :: InForce(ops, k) && ops[k].target == target && ops[k].callback == Some(c.callback)
                             && RegisteredAt(ops, k).Id() == c.id
    ensures forall i, j :: 0 <= i < j < |Calls(Run(ops).live, target)| ==>
            Calls(Run(ops).live, target)[i].id != Calls(Run(ops).live, target)[j].id
  {
    var live := Run(ops).live;
    RunNumbered(ops);
    CallsComeFrom(live, Run(ops).nextId, target, c);
    CalledOnce(live, Run(ops).nextId, target);
    forall r ensures r in live <==> exists k: nat :: InForceAs(ops, k, r) {
      LiveIsInForce(ops, r);
    }
    if c in Calls(live, target) {
      var r :| r in live && r.target == target && r.callback == Some(c.callback) && r.Id() == c.id;
      var k: nat :| InForceAs(ops, k, r);
      assert InForce(ops, k);
    }
    forall k: nat | InForce(ops, k) ensures RegisteredAt(ops, k) in live {
      assert InForceAs(ops, k, RegisteredAt(ops, k));
    }
  }
}
