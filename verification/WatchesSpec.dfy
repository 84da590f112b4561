/** Watches on transactions and outputs: the registered ones in registration order, and the
    tables that index them (internal/indexer/watches.go). */
module WatchesSpec {
  import opened Words
  import Text

  datatype Callback = Callback(token: nat)

  datatype WatchType = TxId | UTxO

  datatype Watch = Watch(
    id: string, kind: WatchType, pattern: string, callback: Option<Callback>, ttl: int, createdAt: int)
  {
    predicate Expired(now: int) { ttl > 0 && now - createdAt > ttl }
  }

  /** What a watch waits for. */
  datatype Target = Transaction(txId: string) | Output(txId: string, index: uint32) {
    function Kind(): WatchType { if Transaction? then TxId else UTxO }

    function Pattern(): string { if Transaction? then txId else UtxoPattern(txId, index) }
  }

  function UtxoPattern(txId: string, index: uint32): string { txId + "#" + Text.Decimal(index) }

  datatype Registration = Registration(
    number: nat, target: Target, callback: Option<Callback>, ttl: int, createdAt: int)
  {
    function Id(): string { WatchId(target.Kind(), number) }

    function ToWatch(): Watch { Watch(Id(), target.Kind(), target.Pattern(), callback, ttl, createdAt) }
  }

  function WatchId(kind: WatchType, number: nat): string {
    (if kind == TxId then "tx-" else "utxo-") + Text.Decimal(number)
  }

  // ----- the linear scan -----

  /** A callback that fires, with the id of its watch. */
  datatype Call = Call(id: string, callback: Callback)

  /** The registrations that wait for a target and have a callback, in registration order. */
  function Calls(live: seq<Registration>, target: Target): seq<Call> {
    if live == [] then []
    else
      var last := live[|live| - 1];
      Calls(live[..|live| - 1], target) +
      (if last.target == target && last.callback.Some? then [Call(last.Id(), last.callback.value)] else [])
  }

  function CallsOfAll(live: seq<Registration>, targets: seq<Target>): seq<Call> {
    if targets == [] then []
    else CallsOfAll(live, targets[..|targets| - 1]) + Calls(live, targets[|targets| - 1])
  }

  /** The registrations with other ids. */
  function Keep(live: seq<Registration>, dropped: set<string>): seq<Registration> {
    if live == [] then []
    else
      Keep(live[..|live| - 1], dropped) +
      (if live[|live| - 1].Id() in dropped then [] else [live[|live| - 1]])
  }

  function Unexpired(live: seq<Registration>, now: int): seq<Registration> {
    if live == [] then []
    else
      Unexpired(live[..|live| - 1], now) +
      (if live[|live| - 1].ToWatch().Expired(now) then [] else [live[|live| - 1]])
  }

  /** Numbers were handed out in order, up to the last one. */
  predicate Numbered(live: seq<Registration>, nextId: nat) {
    live == [] ||
    (0 < live[|live| - 1].number <= nextId && Numbered(live[..|live| - 1], live[|live| - 1].number - 1))
  }

  // ----- the tables -----

  function Table(live: seq<Registration>): map<string, Watch> {
    if live == [] then map[]
    else Table(live[..|live| - 1])[live[|live| - 1].Id() := live[|live| - 1].ToWatch()]
  }

  function At(index: map<string, seq<string>>, key: string): seq<string> {
    if key in index then index[key] else []
  }

  /** The ids waiting for each pattern of one kind. */
  function Index(live: seq<Registration>, kind: WatchType): map<string, seq<string>> {
    if live == [] then map[]
    else
      var rest, last := Index(live[..|live| - 1], kind), live[|live| - 1];
      if last.target.Kind() != kind then rest
      else rest[last.target.Pattern() := At(rest, last.target.Pattern()) + [last.Id()]]
  }

  function Ids(live: seq<Registration>, kind: WatchType, pattern: string): seq<string> {
    if live == [] then []
    else
      var last := live[|live| - 1];
      Ids(live[..|live| - 1], kind, pattern) +
      (if last.target.Kind() == kind && last.target.Pattern() == pattern then [last.Id()] else [])
  }

  function RemovedFromIndex(index: map<string, seq<string>>, key: string, id: string): map<string, seq<string>> {
    if Text.WithoutFirst(At(index, key), id) == [] then index - {key} else index[key := Text.WithoutFirst(At(index, key), id)]
  }

  /** The calls that looking a list of ids up makes. */
  function Fired(ids: seq<string>, watches: map<string, Watch>): seq<Call> {
    if ids == [] then []
    else
      var id := ids[|ids| - 1];
      Fired(ids[..|ids| - 1], watches) +
      (if id in watches && watches[id].callback.Some? then [Call(id, watches[id].callback.value)] else [])
  }

  // ----- ids and patterns -----

  lemma IdInjective(k: WatchType, m: nat, l: WatchType, n: nat)
    requires WatchId(k, m) == WatchId(l, n)
    ensures k == l && m == n
  {
    assert WatchId(k, m)[0] == if k == TxId then 't' else 'u';
    assert WatchId(l, n)[0] == if l == TxId then 't' else 'u';
    var head := if k == TxId then "tx-" else "utxo-";
    assert Text.Decimal(m) == WatchId(k, m)[|head|..] == Text.Decimal(n);
    Text.DecimalInjective(m, n);
  }

  /** The pattern and the kind of a watch tell what it waits for. */
  lemma PatternInjective(s: Target, t: Target)
    ensures s.Kind() == t.Kind() && s.Pattern() == t.Pattern() <==> s == t
  {
    if s.Output? && t.Output? && s.Pattern() == t.Pattern() {
      assert UtxoPattern(s.txId, s.index) == s.txId + ['#'] + Text.Decimal(s.index);
      assert UtxoPattern(t.txId, t.index) == t.txId + ['#'] + Text.Decimal(t.index);
      Text.JoinInjectiveFromTheEnd(s.txId, Text.Decimal(s.index), t.txId, Text.Decimal(t.index), '#');
      Text.DecimalInjective(s.index, t.index);
    }
  }

  // ----- the tables agree with the scan -----

  lemma {:induction false} NumbersBelow(live: seq<Registration>, nextId: nat, r: Registration)
    requires Numbered(live, nextId) && r in live
    ensures 0 < r.number <= nextId
  {
    if r != live[|live| - 1] {
      var last := live[|live| - 1];
      assert live == live[..|live| - 1] + [last];
      NumbersBelow(live[..|live| - 1], last.number - 1, r);
    }
  }

  lemma {:induction false} TableHas(live: seq<Registration>, nextId: nat, r: Registration)
    requires Numbered(live, nextId) && r in live
    ensures r.Id() in Table(live) && Table(live)[r.Id()] == r.ToWatch()
  {
    var rest, last := live[..|live| - 1], live[|live| - 1];
    assert live == rest + [last];
    if r in rest {
      TableHas(rest, last.number - 1, r);
      NumbersBelow(rest, last.number - 1, r);
      if r.Id() == last.Id() {
        IdInjective(r.target.Kind(), r.number, last.target.Kind(), last.number);
      }
    }
  }

  lemma {:induction false} TableKnows(live: seq<Registration>, id: string) returns (r: Registration)
    requires id in Table(live)
    ensures r in live && r.Id() == id
  {
    var rest, last := live[..|live| - 1], live[|live| - 1];
    assert live == rest + [last];
    if last.Id() == id {
      r := last;
    } else {
      r := TableKnows(rest, id);
    }
  }

  lemma {:induction false} IndexListsIds(live: seq<Registration>, kind: WatchType, pattern: string)
    ensures At(Index(live, kind), pattern) == Ids(live, kind, pattern)
    ensures pattern in Index(live, kind) <==> Ids(live, kind, pattern) != []
  {
    if live != [] {
      IndexListsIds(live[..|live| - 1], kind, pattern);
    }
  }

  lemma {:induction false} FiredIsScan(part: seq<Registration>, live: seq<Registration>, nextId: nat, target: Target)
    requires Numbered(live, nextId) && forall r :: r in part ==> r in live
    ensures Fired(Ids(part, target.Kind(), target.Pattern()), Table(live)) == Calls(part, target)
  {
    if part != [] {
      var rest, last := part[..|part| - 1], part[|part| - 1];
      FiredIsScan(rest, live, nextId, target);
      TableHas(live, nextId, last);
      PatternInjective(last.target, target);
      var ids := Ids(rest, target.Kind(), target.Pattern());
      assert ids + [] == ids && (ids + [last.Id()])[..|ids|] == ids;
    }
  }

  /** Looking a pattern up fires exactly what a scan of all registrations would, in registration
      order. */
  lemma LookupIsScan(live: seq<Registration>, nextId: nat, target: Target)
    requires Numbered(live, nextId)
    ensures Fired(At(Index(live, target.Kind()), target.Pattern()), Table(live)) == Calls(live, target)
  {
    IndexListsIds(live, target.Kind(), target.Pattern());
    FiredIsScan(live, live, nextId, target);
  }

  lemma {:induction false} CallsComeFrom(live: seq<Registration>, nextId: nat, target: Target, c: Call)
    requires Numbered(live, nextId)
    ensures c in Calls(live, target) <==>
            exists r :: r in live && r.target == target && r.callback == Some(c.callback) && r.Id() == c.id
  {
    if live != [] {
      var rest, last := live[..|live| - 1], live[|live| - 1];
      assert live == rest + [last];
      CallsComeFrom(rest, last.number - 1, target, c);
    }
  }

  /** No registration is called twice for one target. */
  lemma {:induction false} CalledOnce(live: seq<Registration>, nextId: nat, target: Target)
    requires Numbered(live, nextId)
    ensures forall i, j :: 0 <= i < j < |Calls(live, target)| ==> Calls(live, target)[i].id != Calls(live, target)[j].id
  {
    if live != [] {
      var rest, last := live[..|live| - 1], live[|live| - 1];
      CalledOnce(rest, last.number - 1, target);
      var calls := Calls(rest, target);
      forall i | 0 <= i < |calls| ensures calls[i].id != last.Id() {
        CallsComeFrom(rest, last.number - 1, target, calls[i]);
        var r :| r in rest && r.Id() == calls[i].id;
        NumbersBelow(rest, last.number - 1, r);
        if r.Id() == last.Id() {
          IdInjective(r.target.Kind(), r.number, last.target.Kind(), last.number);
        }
      }
    }
  }

  // ----- one more -----

  lemma NumberedMore(live: seq<Registration>, m: nat, n: nat)
    requires Numbered(live, m) && m <= n
    ensures Numbered(live, n)
  {
  }

  lemma NumberedAppend(live: seq<Registration>, r: Registration, nextId: nat)
    requires 0 < r.number <= nextId && Numbered(live, r.number - 1)
    ensures Numbered(live + [r], nextId)
  {
    assert (live + [r])[..|live|] == live;
  }

  lemma TableAppend(live: seq<Registration>, r: Registration)
    ensures Table(live + [r]) == Table(live)[r.Id() := r.ToWatch()]
  {
    assert (live + [r])[..|live|] == live;
  }

  lemma IndexAppend(live: seq<Registration>, r: Registration, kind: WatchType)
    ensures Index(live + [r], kind) ==
            if r.target.Kind() != kind then Index(live, kind)
            else Index(live, kind)[r.target.Pattern() := At(Index(live, kind), r.target.Pattern()) + [r.Id()]]
  {
    assert (live + [r])[..|live|] == live;
  }

  /** The tables after a registration: one entry more, and the id last in its list. */
  lemma OneMore(live: seq<Registration>, r: Registration, nextId: nat, w: Watch, pattern: string)
    requires Numbered(live, nextId) && r.number == nextId + 1
    requires w == r.ToWatch() && pattern == w.pattern
    ensures Numbered(live + [r], nextId + 1)
    ensures Table(live + [r]) == Table(live)[w.id := w]
    ensures Index(live + [r], w.kind) == Index(live, w.kind)[pattern := At(Index(live, w.kind), pattern) + [w.id]]
    ensures forall k :: k != w.kind ==> Index(live + [r], k) == Index(live, k)
  {
    NumberedAppend(live, r, nextId + 1);
    TableAppend(live, r);
    forall k {
      IndexAppend(live, r, k);
    }
  }

  // ----- dropping -----

  lemma KeepLast(live: seq<Registration>, dropped: set<string>)
    requires live != []
    ensures var kept, last := Keep(live[..|live| - 1], dropped), live[|live| - 1];
      Keep(live, dropped) == if last.Id() in dropped then kept else kept + [last]
  {
    var kept := Keep(live[..|live| - 1], dropped);
    assert kept + [] == kept;
  }

  lemma {:induction false} KeepNumbered(live: seq<Registration>, dropped: set<string>, nextId: nat)
    requires Numbered(live, nextId)
    ensures Numbered(Keep(live, dropped), nextId)
  {
    if live != [] {
      var rest, last := live[..|live| - 1], live[|live| - 1];
      KeepNumbered(rest, dropped, last.number - 1);
      KeepLast(live, dropped);
      if last.Id() in dropped {
        NumberedMore(Keep(rest, dropped), last.number - 1, nextId);
      } else {
        NumberedAppend(Keep(rest, dropped), last, nextId);
      }
    }
  }

  lemma {:induction false} KeepTwice(live: seq<Registration>, a: set<string>, b: set<string>)
    ensures Keep(Keep(live, a), b) == Keep(live, a + b)
  {
    if live != [] {
      var rest, last := live[..|live| - 1], live[|live| - 1];
      KeepTwice(rest, a, b);
      KeepLast(live, a);
      KeepLast(live, a + b);
      var kept := Keep(rest, a);
      if last.Id() !in a {
        assert (kept + [last])[..|kept|] == kept;
        KeepLast(kept + [last], b);
      }
    }
  }

  lemma {:induction false} KeepAll(live: seq<Registration>, dropped: set<string>)
    requires forall r :: r in live ==> r.Id() !in dropped
    ensures Keep(live, dropped) == live
  {
    if live != [] {
      assert live == live[..|live| - 1] + [live[|live| - 1]];
      KeepAll(live[..|live| - 1], dropped);
    }
  }

  lemma {:induction false} KeepUnexpired(live: seq<Registration>, expired: set<string>, now: int)
    requires forall r :: r in live ==> (r.Id() in expired <==> r.ToWatch().Expired(now))
    ensures Keep(live, expired) == Unexpired(live, now)
  {
    if live != [] {
      assert live == live[..|live| - 1] + [live[|live| - 1]];
      KeepUnexpired(live[..|live| - 1], expired, now);
    }
  }

  lemma UpdateThenDrop(m: map<string, Watch>, key: string, w: Watch, id: string)
    ensures m[key := w] - {id} == if key == id then m - {id} else (m - {id})[key := w]
  {
  }

  lemma {:induction false} KeepTable(live: seq<Registration>, id: string)
    ensures Table(Keep(live, {id})) == Table(live) - {id}
  {
    if live != [] {
      var rest, last := live[..|live| - 1], live[|live| - 1];
      KeepTable(rest, id);
      KeepLast(live, {id});
      UpdateThenDrop(Table(rest), last.Id(), last.ToWatch(), id);
      if last.Id() != id {
        TableAppend(Keep(rest, {id}), last);
      }
    }
  }

  lemma {:induction false} WithoutAppended(ids: seq<string>, x: string, id: string)
    ensures Text.WithoutFirst(ids + [x], id) ==
            if id in ids then Text.WithoutFirst(ids, id) + [x] else if x == id then ids else ids + [x]
  {
    if ids != [] {
      assert (ids + [x])[1..] == ids[1..] + [x];
      assert ids == [ids[0]] + ids[1..];
      WithoutAppended(ids[1..], x, id);
    }
  }

  lemma {:induction false} WithoutAbsent(ids: seq<string>, id: string)
    requires id !in ids
    ensures Text.WithoutFirst(ids, id) == ids
  {
    if ids != [] {
      WithoutAbsent(ids[1..], id);
    }
  }

  lemma {:induction false} IdsKnow(live: seq<Registration>, kind: WatchType, pattern: string, id: string)
    returns (r: Registration)
    requires id in Ids(live, kind, pattern)
    ensures r in live && r.Id() == id && r.target.Kind() == kind && r.target.Pattern() == pattern
  {
    var rest, last := live[..|live| - 1], live[|live| - 1];
    assert live == rest + [last];
    if id in Ids(rest, kind, pattern) {
      r := IdsKnow(rest, kind, pattern, id);
    } else {
      r := last;
    }
  }

  /** An id stands only under the kind and the pattern of its registration. */
  lemma IdsOnlyHere(live: seq<Registration>, nextId: nat, r: Registration, kind: WatchType, pattern: string)
    requires Numbered(live, nextId) && r in live
    ensures r.Id() in Ids(live, kind, pattern) ==> r.target.Kind() == kind && r.target.Pattern() == pattern
  {
    if r.Id() in Ids(live, kind, pattern) {
      var q := IdsKnow(live, kind, pattern, r.Id());
      TableHas(live, nextId, r);
      TableHas(live, nextId, q);
    }
  }

  lemma LastIdIsNew(live: seq<Registration>, nextId: nat, kind: WatchType, pattern: string)
    requires Numbered(live, nextId) && live != []
    ensures live[|live| - 1].Id() !in Ids(live[..|live| - 1], kind, pattern)
  {
    var rest, last := live[..|live| - 1], live[|live| - 1];
    if last.Id() in Ids(rest, kind, pattern) {
      var q := IdsKnow(rest, kind, pattern, last.Id());
      NumbersBelow(rest, last.number - 1, q);
      IdInjective(q.target.Kind(), q.number, last.target.Kind(), last.number);
    }
  }

  lemma IdsAppend(live: seq<Registration>, r: Registration, kind: WatchType, pattern: string)
    ensures Ids(live + [r], kind, pattern) == Ids(live, kind, pattern) +
            (if r.target.Kind() == kind && r.target.Pattern() == pattern then [r.Id()] else [])
  {
    assert (live + [r])[..|live|] == live;
  }

  lemma WithoutLast(ids: seq<string>, own: seq<string>, x: string, id: string)
    requires x !in ids && (own == [] || own == [x])
    ensures Text.WithoutFirst(ids + own, id) == if x == id then Text.WithoutFirst(ids, id) else Text.WithoutFirst(ids, id) + own
  {
    if own == [] {
      assert ids + own == ids && Text.WithoutFirst(ids, id) + own == Text.WithoutFirst(ids, id);
    } else {
      WithoutAppended(ids, x, id);
      if id !in ids {
        WithoutAbsent(ids, id);
      }
    }
  }

  lemma KeepIdsStep(rest: seq<Registration>, last: Registration, id: string, kind: WatchType, pattern: string)
    requires Ids(Keep(rest, {id}), kind, pattern) == Text.WithoutFirst(Ids(rest, kind, pattern), id)
    requires last.Id() !in Ids(rest, kind, pattern)
    ensures Ids(if last.Id() == id then Keep(rest, {id}) else Keep(rest, {id}) + [last], kind, pattern)
         == Text.WithoutFirst(Ids(rest + [last], kind, pattern), id)
  {
    IdsAppend(rest, last, kind, pattern);
    IdsAppend(Keep(rest, {id}), last, kind, pattern);
    WithoutLast(Ids(rest, kind, pattern),
                if last.target.Kind() == kind && last.target.Pattern() == pattern then [last.Id()] else [], last.Id(), id);
  }

  lemma LastSplit(live: seq<Registration>)
    requires live != []
    ensures live == live[..|live| - 1] + [live[|live| - 1]]
  {
  }

  lemma {:induction false} KeepIds(live: seq<Registration>, nextId: nat, id: string, kind: WatchType, pattern: string)
    requires Numbered(live, nextId)
    ensures Ids(Keep(live, {id}), kind, pattern) == Text.WithoutFirst(Ids(live, kind, pattern), id)
  {
    if live != [] {
      var rest, last := live[..|live| - 1], live[|live| - 1];
      KeepIds(rest, last.number - 1, id, kind, pattern);
      LastIdIsNew(live, nextId, kind, pattern);
      KeepLast(live, {id});
      LastSplit(live);
      KeepIdsStep(rest, last, id, kind, pattern);
    }
  }

  lemma KeepAt(live: seq<Registration>, nextId: nat, r: Registration, kind: WatchType, pattern: string)
    requires Numbered(live, nextId) && r in live
    ensures At(Index(Keep(live, {r.Id()}), kind), pattern)
         == if kind == r.target.Kind() && pattern == r.target.Pattern()
            then Text.WithoutFirst(At(Index(live, kind), pattern), r.Id()) else At(Index(live, kind), pattern)
    ensures pattern in Index(Keep(live, {r.Id()}), kind) <==> At(Index(Keep(live, {r.Id()}), kind), pattern) != []
    ensures pattern in Index(live, kind) <==> At(Index(live, kind), pattern) != []
  {
    IndexListsIds(live, kind, pattern);
    IndexListsIds(Keep(live, {r.Id()}), kind, pattern);
    KeepIds(live, nextId, r.Id(), kind, pattern);
    IdsOnlyHere(live, nextId, r, kind, pattern);
    if r.Id() !in Ids(live, kind, pattern) {
      WithoutAbsent(Ids(live, kind, pattern), r.Id());
    }
  }

  lemma SameIndex(a: map<string, seq<string>>, b: map<string, seq<string>>)
    requires forall p :: (p in a <==> p in b) && At(a, p) == At(b, p)
    ensures a == b
  {
    forall p | p in a ensures p in b && a[p] == b[p] {
      assert At(a, p) == At(b, p);
    }
    forall p | p in b ensures p in a {
      assert At(a, p) == At(b, p);
    }
  }

  /** Removing one id from the index of its kind keeps both indexes in step. */
  lemma KeepIndex(live: seq<Registration>, nextId: nat, r: Registration, kind: WatchType)
    requires Numbered(live, nextId) && r in live
    ensures Index(Keep(live, {r.Id()}), kind)
         == if kind == r.target.Kind() then RemovedFromIndex(Index(live, kind), r.target.Pattern(), r.Id())
            else Index(live, kind)
  {
    var kept := Index(Keep(live, {r.Id()}), kind);
    var removed := if kind == r.target.Kind() then RemovedFromIndex(Index(live, kind), r.target.Pattern(), r.Id())
                   else Index(live, kind);
    forall p ensures (p in kept <==> p in removed) && At(kept, p) == At(removed, p) {
      KeepAt(live, nextId, r, kind, p);
    }
    SameIndex(kept, removed);
  }
}
