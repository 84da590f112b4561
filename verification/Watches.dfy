/** The watch manager (internal/indexer/watches.go): which callbacks fire, not when they run. */
module Watches {
  import opened Words
  import opened WatchesSpec
  import Text
  import WatchRuns

  /** An event of the indexer: a transaction, with its hash and the outputs it consumes when the
      event carries them, or anything else. */
  datatype Event =
    | TransactionEvent(hash: Option<string>, consumed: Option<seq<(string, uint32)>>)
    | OtherEvent

  function Inputs(consumed: seq<(string, uint32)>): seq<Target> {
    if consumed == [] then []
    else Inputs(consumed[..|consumed| - 1]) + [Output(consumed[|consumed| - 1].0, consumed[|consumed| - 1].1)]
  }

  /** What an event can trigger. */
  function Targets(evt: Event): seq<Target> {
    match evt
    case OtherEvent => []
    case TransactionEvent(hash, consumed) =>
      (if hash.Some? then [Transaction(hash.value)] else []) +
      (if consumed.Some? then Inputs(consumed.value) else [])
  }

  lemma InputsNext(inputs: seq<(string, uint32)>, i: nat)
    requires i < |inputs|
    ensures Inputs(inputs[..i + 1]) == Inputs(inputs[..i]) + [Output(inputs[i].0, inputs[i].1)]
  {
    assert inputs[..i + 1][..i] == inputs[..i];
  }

  lemma CallsOfOne(live: seq<Registration>, target: Target)
    ensures CallsOfAll(live, [target]) == Calls(live, target)
  {
    assert [target][..0] == [];
    assert [] + Calls(live, target) == Calls(live, target);
  }

  lemma CallsOfMore(live: seq<Registration>, targets: seq<Target>, target: Target)
    ensures CallsOfAll(live, targets + [target]) == CallsOfAll(live, targets) + Calls(live, target)
  {
    assert (targets + [target])[..|targets|] == targets;
  }

  lemma Regroup(x: seq<Call>, y: seq<Call>, z: seq<Call>)
    ensures (x + y) + z == x + (y + z)
  {
  }

  lemma CallsOfBothAndMore(live: seq<Registration>, a: seq<Target>, b: seq<Target>, target: Target)
    requires CallsOfAll(live, a + b) == CallsOfAll(live, a) + CallsOfAll(live, b)
    ensures CallsOfAll(live, a + (b + [target])) == CallsOfAll(live, a) + CallsOfAll(live, b + [target])
  {
    CallsOfMore(live, a + b, target);
    CallsOfMore(live, b, target);
    Regroup(CallsOfAll(live, a), CallsOfAll(live, b), Calls(live, target));
    assert a + (b + [target]) == (a + b) + [target];
  }

  lemma {:induction false} CallsOfBoth(live: seq<Registration>, a: seq<Target>, b: seq<Target>)
    ensures CallsOfAll(live, a + b) == CallsOfAll(live, a) + CallsOfAll(live, b)
  {
    if b == [] {
      assert a + b == a;
    } else {
      CallsOfBoth(live, a, b[..|b| - 1]);
      CallsOfBothAndMore(live, a, b[..|b| - 1], b[|b| - 1]);
      assert b == b[..|b| - 1] + [b[|b| - 1]];
    }
  }

  function IdSet(ids: seq<string>): set<string> { set id | id in ids }

  lemma ExpiredKept(live: seq<Registration>, nextId: nat, expiredIds: seq<string>, now: int)
    requires Numbered(live, nextId)
    requires forall id :: id in expiredIds <==> id in Table(live) && Table(live)[id].Expired(now)
    ensures Keep(live, IdSet(expiredIds)) == Unexpired(live, now)
  {
    forall r | r in live ensures r.Id() in IdSet(expiredIds) <==> r.ToWatch().Expired(now) {
      TableHas(live, nextId, r);
    }
    KeepUnexpired(live, IdSet(expiredIds), now);
  }

  lemma IdSetNext(ids: seq<string>, i: nat)
    requires i < |ids|
    ensures IdSet(ids[..i + 1]) == IdSet(ids[..i]) + {ids[i]}
  {
    assert ids[..i + 1] == ids[..i] + [ids[i]];
  }

  lemma KeepAbsent(live: seq<Registration>, nextId: nat, id: string)
    requires Numbered(live, nextId) && id !in Table(live)
    ensures Keep(live, {id}) == live
  {
    forall r | r in live ensures r.Id() !in {id} {
      TableHas(live, nextId, r);
    }
    KeepAll(live, {id});
  }

  method RemoveFromIndex(index: map<string, seq<string>>, key: string, watchId: string)
    returns (r: map<string, seq<string>>)
    ensures r == RemovedFromIndex(index, key, watchId)
  {
    r := index;
    var watchIds := At(index, key);
    var i := 0;
    while i < |watchIds|
      invariant i <= |watchIds| && r == index && forall k :: 0 <= k < i ==> watchIds[k] != watchId
    {
      if watchIds[i] == watchId {
        r := index[key := watchIds[..i] + watchIds[i + 1..]];
        break;
      }
      i := i + 1;
    }
    Text.WithoutFirstSkips(watchIds, watchId, i);
    assert At(r, key) == Text.WithoutFirst(watchIds, watchId);
    if At(r, key) == [] {
      r := r - {key};
    }
  }

  /** The event is a transaction with this hash, or consumes this output. */
  predicate TriggeredBy(evt: Event, target: Target) {
    match target
    case Transaction(txId) => evt.TransactionEvent? && evt.hash == Some(txId)
    case Output(txId, index) => evt.TransactionEvent? && evt.consumed.Some? && (txId, index) in evt.consumed.value
  }

  lemma {:induction false} InputsMembers(consumed: seq<(string, uint32)>, target: Target)
    ensures target in Inputs(consumed) <==> target.Output? && (target.txId, target.index) in consumed
  {
    if consumed != [] {
      assert consumed == consumed[..|consumed| - 1] + [consumed[|consumed| - 1]];
      InputsMembers(consumed[..|consumed| - 1], target);
    }
  }

  lemma TargetsIff(evt: Event, target: Target)
    ensures target in Targets(evt) <==> TriggeredBy(evt, target)
  {
    if evt.TransactionEvent? && evt.consumed.Some? {
      InputsMembers(evt.consumed.value, target);
    }
  }

  lemma {:induction false} CallsOfAllMembers(live: seq<Registration>, targets: seq<Target>, c: Call)
    ensures c in CallsOfAll(live, targets) <==> exists t :: t in targets && c in Calls(live, t)
  {
    if targets != [] {
      var rest, last := targets[..|targets| - 1], targets[|targets| - 1];
      CallsOfAllMembers(live, rest, c);
      assert targets == rest + [last];
      assert c in CallsOfAll(live, targets) <==> c in CallsOfAll(live, rest) || c in Calls(live, last);
      assert last in targets && forall t :: t in targets <==> t in rest || t == last;
    }
  }

  /** The call belongs to a live registration that the event triggers. */
  ghost predicate Triggered(live: seq<Registration>, evt: Event, c: Call) {
    exists r :: r in live && TriggeredBy(evt, r.target) && r.callback == Some(c.callback) && r.Id() == c.id
  }

  lemma CallsAreTriggered(live: seq<Registration>, nextId: nat, evt: Event, c: Call)
    requires Numbered(live, nextId)
    ensures c in CallsOfAll(live, Targets(evt)) <==> Triggered(live, evt, c)
  {
    CallsOfAllMembers(live, Targets(evt), c);
    if t :| t in Targets(evt) && c in Calls(live, t) {
      CallsComeFrom(live, nextId, t, c);
      TargetsIff(evt, t);
    }
    if r :| r in live && TriggeredBy(evt, r.target) && r.callback == Some(c.callback) && r.Id() == c.id {
      CallsComeFrom(live, nextId, r.target, c);
      TargetsIff(evt, r.target);
    }
  }

  /** The calls are those of the live registrations that the event triggers, with those for its hash
      first. */
  ghost predicate FiresExactly(live: seq<Registration>, evt: Event, fired: seq<Call>) {
    && (forall c :: c in fired <==> Triggered(live, evt, c))
    && (evt.TransactionEvent? && evt.hash.Some? ==> Calls(live, Transaction(evt.hash.value)) <= fired)
  }

  lemma ScanFiresExactly(live: seq<Registration>, nextId: nat, evt: Event)
    requires Numbered(live, nextId)
    ensures FiresExactly(live, evt, CallsOfAll(live, Targets(evt)))
  {
    forall c ensures c in CallsOfAll(live, Targets(evt)) <==> Triggered(live, evt, c) {
      CallsAreTriggered(live, nextId, evt, c);
    }
    if evt.TransactionEvent? && evt.hash.Some? {
      var target := Transaction(evt.hash.value);
      CallsOfOne(live, target);
      CallsOfBoth(live, [target], if evt.consumed.Some? then Inputs(evt.consumed.value) else []);
    }
  }

  class WatchManager {
    var watches: map<string, Watch>
    var txIdIndex: map<string, seq<string>>
    var utxoIndex: map<string, seq<string>>
    var nextId: nat
    var stopped: bool
    ghost var live: seq<Registration>

    ghost predicate Valid()
      reads this
    {
      && Numbered(live, nextId) && watches == Table(live)
      && txIdIndex == Index(live, TxId) && utxoIndex == Index(live, UTxO)
      && (stopped ==> live == [])
    }

    ghost function View(): WatchRuns.State
      reads this
    {
      WatchRuns.State(live, nextId, stopped)
    }

    constructor ()
      ensures Valid() && View() == WatchRuns.Run([])
    {
      watches, txIdIndex, utxoIndex, nextId, stopped, live := map[], map[], map[], 0, false, [];
    }

    method RegisterTxWatch(txId: string, ttl: int, callback: Option<Callback>, now: int) returns (watchId: string)
      requires Valid()
      modifies this
      ensures Valid() && View() == WatchRuns.Apply(old(View()), WatchRuns.Register(Transaction(txId), callback, ttl, now))
      ensures watchId == if stopped then "" else WatchId(TxId, nextId)
    {
      if stopped {
        return "";
      }
      ghost var r := Registration(nextId + 1, Transaction(txId), callback, ttl, now);
      watchId := WatchId(TxId, nextId + 1);
      Insert(Watch(watchId, TxId, txId, callback, ttl, now), r);
    }

    method RegisterUTxOWatch(txId: string, index: uint32, ttl: int, callback: Option<Callback>, now: int)
      returns (watchId: string)
      requires Valid()
      modifies this
      ensures Valid() && View() == WatchRuns.Apply(old(View()), WatchRuns.Register(Output(txId, index), callback, ttl, now))
      ensures watchId == if stopped then "" else WatchId(UTxO, nextId)
    {
      if stopped {
        return "";
      }
      ghost var r := Registration(nextId + 1, Output(txId, index), callback, ttl, now);
      watchId := WatchId(UTxO, nextId + 1);
      Insert(Watch(watchId, UTxO, UtxoPattern(txId, index), callback, ttl, now), r);
    }

    /** Puts a new watch into the table and the index of its kind. */
    method Insert(watch: Watch, ghost r: Registration)
      requires Valid() && !stopped && r.number == nextId + 1 && watch == r.ToWatch()
      modifies this
      ensures Valid() && View() == WatchRuns.State(old(live) + [r], old(nextId) + 1, false)
    {
      OneMore(live, r, nextId, watch, watch.pattern);
      nextId := nextId + 1;
      watches := watches[watch.id := watch];
      match watch.kind {
        case TxId => txIdIndex := txIdIndex[watch.pattern := At(txIdIndex, watch.pattern) + [watch.id]];
        case UTxO => utxoIndex := utxoIndex[watch.pattern := At(utxoIndex, watch.pattern) + [watch.id]];
      }
      live := live + [r];
    }

    method Unregister(watchId: string)
      requires Valid()
      modifies this
      ensures Valid() && View() == WatchRuns.Apply(old(View()), WatchRuns.Unregister(watchId))
    {
      KeepTable(live, watchId);
      KeepNumbered(live, {watchId}, nextId);
      if watchId !in watches {
        KeepAbsent(live, nextId, watchId);
        return;
      }
      ghost var r := TableKnows(live, watchId);
      TableHas(live, nextId, r);
      KeepIndex(live, nextId, r, TxId);
      KeepIndex(live, nextId, r, UTxO);
      var watch := watches[watchId];
      match watch.kind {
        case TxId => txIdIndex := RemoveFromIndex(txIdIndex, watch.pattern, watchId);
        case UTxO => utxoIndex := RemoveFromIndex(utxoIndex, watch.pattern, watchId);
      }
      watches := watches - {watchId};
      live := Keep(live, {watchId});
    }

    /** The expired ids are collected in any order. */
    method ExpiredIds(now: int) returns (expiredIds: seq<string>)
      ensures forall id :: id in expiredIds <==> id in watches && watches[id].Expired(now)
    {
      expiredIds := [];
      var left := watches.Keys;
      while left != {}
        invariant left <= watches.Keys
        invariant forall id :: id in expiredIds <==> id in watches && id !in left && watches[id].Expired(now)
        decreases left
      {
        var id :| id in left;
        if watches[id].Expired(now) {
          expiredIds := expiredIds + [id];
        }
        left := left - {id};
      }
    }

    method ExpireWatches(now: int)
      requires Valid()
      modifies this
      ensures Valid() && View() == WatchRuns.Apply(old(View()), WatchRuns.Expire(now))
    {
      var expiredIds := ExpiredIds(now);
      ExpiredKept(live, nextId, expiredIds, now);
      UnregisterAll(expiredIds);
    }

    method UnregisterAll(ids: seq<string>)
      requires Valid()
      modifies this
      ensures Valid() && live == Keep(old(live), IdSet(ids)) && nextId == old(nextId) && stopped == old(stopped)
    {
      ghost var before := live;
      ghost var done: set<string> := {};
      KeepAll(before, done);
      for i := 0 to |ids|
        invariant Valid() && nextId == old(nextId) && stopped == old(stopped)
        invariant live == Keep(before, done)
        invariant done == IdSet(ids[..i])
      {
        IdSetNext(ids, i);
        UnregisterNext(ids[i], before, done);
        done := done + {ids[i]};
      }
      assert ids[..|ids|] == ids;
    }

    /** One more of the ids that go. */
    method UnregisterNext(id: string, ghost before: seq<Registration>, ghost done: set<string>)
      requires Valid() && live == Keep(before, done)
      modifies this
      ensures Valid() && live == Keep(before, done + {id}) && nextId == old(nextId) && stopped == old(stopped)
    {
      KeepTwice(before, done, {id});
      Unregister(id);
    }

    method Stop()
      requires Valid()
      modifies this
      ensures Valid() && View() == WatchRuns.Apply(old(View()), WatchRuns.Stop)
    {
      if stopped {
        return;
      }
      stopped := true;
      watches, txIdIndex, utxoIndex := map[], map[], map[];
      live := [];
    }

    /** The callbacks that an event fires: those of a scan of all live watches, once for each thing
        the event can trigger. */
    method CheckEvent(evt: Event) returns (fired: seq<Call>)
      requires Valid()
      ensures fired == if stopped then [] else CallsOfAll(live, Targets(evt))
      ensures if stopped then fired == [] else FiresExactly(live, evt, fired)
    {
      ScanFiresExactly(live, nextId, evt);
      fired := [];
      if stopped || evt.OtherEvent? {
        return;
      }
      ghost var targets: seq<Target> := [];
      if evt.hash.Some? {
        targets := [Transaction(evt.hash.value)];
        LookupIsScan(live, nextId, targets[0]);
        CallsOfOne(live, targets[0]);
        fired := FireWatches(At(txIdIndex, evt.hash.value));
      }
      if evt.consumed.Some? {
        var calls := FireInputs(evt.consumed.value);
        CallsOfBoth(live, targets, Inputs(evt.consumed.value));
        fired := fired + calls;
      }
      assert Targets(evt) == targets + if evt.consumed.Some? then Inputs(evt.consumed.value) else [];
    }

    method FireInputs(inputs: seq<(string, uint32)>) returns (fired: seq<Call>)
      requires Valid()
      ensures fired == CallsOfAll(live, Inputs(inputs))
    {
      fired := [];
      var i := 0;
      while i < |inputs|
        invariant i <= |inputs| && fired == CallsOfAll(live, Inputs(inputs[..i]))
      {
        InputsNext(inputs, i);
        ghost var target := Output(inputs[i].0, inputs[i].1);
        CallsOfMore(live, Inputs(inputs[..i]), target);
        LookupIsScan(live, nextId, target);
        var calls := FireWatches(At(utxoIndex, UtxoPattern(inputs[i].0, inputs[i].1)));
        fired := fired + calls;
        i := i + 1;
      }
      assert inputs[..i] == inputs;
    }

    method FireWatches(watchIds: seq<string>) returns (fired: seq<Call>)
      ensures fired == Fired(watchIds, watches)
    {
      fired := [];
      var i := 0;
      while i < |watchIds|
        invariant i <= |watchIds| && fired == Fired(watchIds[..i], watches)
      {
        assert watchIds[..i + 1][..i] == watchIds[..i];
        var id := watchIds[i];
        if id in watches && watches[id].callback.Some? {
          fired := fired + [Call(id, watches[id].callback.value)];
        }
        i := i + 1;
      }
      assert watchIds[..i] == watchIds;
    }
  }
}
