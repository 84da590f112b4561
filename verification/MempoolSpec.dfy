/** Pending effects of one pool relative to a moving confirmed state, with signed 64-bit deltas
    (internal/oracle/mempool.go). */
module MempoolSpec {
  import opened Words
  import opened Dex
  import Text

  // ----- saturating arithmetic -----

  /** The nearest int64. */
  function Clamp(x: int): int64 { Max(MIN_INT64, Min(MAX_INT64, x)) }

  /** Two's complement addition. */
  function WrappingSum(a: int64, b: int64): int64 {
    (a + b + 0x8000_0000_0000_0000) % 0x1_0000_0000_0000_0000 - 0x8000_0000_0000_0000
  }

  function ReserveDelta(newAmount: uint64, oldAmount: uint64): int64 {
    if newAmount >= oldAmount then
      if newAmount - oldAmount <= MAX_INT64 then newAmount - oldAmount else MAX_INT64
    else
      if oldAmount - newAmount <= MAX_INT64 then -(oldAmount - newAmount) else MIN_INT64
  }

  function AddDeltaSaturating(a: int64, b: int64): int64 {
    var sum := WrappingSum(a, b);
    if a > 0 && b > 0 && sum < 0 then MAX_INT64
    else if a < 0 && b < 0 && sum >= 0 then MIN_INT64
    else sum
  }

  lemma ReserveDeltaIsClamp(newAmount: uint64, oldAmount: uint64)
    ensures ReserveDelta(newAmount, oldAmount) == Clamp(newAmount - oldAmount)
  {
  }

  lemma WrapsOnce(a: int64, b: int64)
    ensures WrappingSum(a, b) ==
            if a + b > MAX_INT64 then a + b - 0x1_0000_0000_0000_0000
            else if a + b < MIN_INT64 then a + b + 0x1_0000_0000_0000_0000
            else a + b
  {
  }

  lemma AddDeltaIsClamp(a: int64, b: int64)
    ensures AddDeltaSaturating(a, b) == Clamp(a + b)
  {
    WrapsOnce(a, b);
  }

  predicate InInt64(d: int) { MIN_INT64 <= d <= MAX_INT64 }

  /** The true differences of two steps that a rebase takes without loss: both fit, or only one is
      out of range and the other does not lead back, or they lie beyond opposite ends and the two
      losses cancel. */
  predicate Lossless(d: int, e: int) {
    || (InInt64(d) && InInt64(e))
    || (d > MAX_INT64 && 0 <= e <= MAX_INT64) || (e > MAX_INT64 && 0 <= d <= MAX_INT64)
    || (d < MIN_INT64 && MIN_INT64 <= e <= 0) || (e < MIN_INT64 && MIN_INT64 <= d <= 0)
    || (((d > MAX_INT64 && e < MIN_INT64) || (d < MIN_INT64 && e > MAX_INT64)) && d + e == -1)
  }

  /** A rebased delta is the one computed afresh exactly when the two steps are lossless. */
  lemma RebaseIsExactIff(recorded: uint64, confirmed: uint64, next: uint64)
    ensures AddDeltaSaturating(ReserveDelta(recorded, confirmed), ReserveDelta(confirmed, next))
         == ReserveDelta(recorded, next)
       <==> Lossless(recorded - confirmed, confirmed - next)
  {
    AddDeltaIsClamp(ReserveDelta(recorded, confirmed), ReserveDelta(confirmed, next));
    ReserveDeltaIsClamp(recorded, confirmed);
    ReserveDeltaIsClamp(confirmed, next);
    ReserveDeltaIsClamp(recorded, next);
  }

  /** Beyond int64 a rebased delta can drift: a pending state equal to the confirmed one shows a
      difference. */
  lemma SaturationDrifts()
    ensures AddDeltaSaturating(ReserveDelta(MAX_UINT64, 0), ReserveDelta(0, MAX_UINT64)) == -1
    ensures ReserveDelta(MAX_UINT64, MAX_UINT64) == 0
  {
    WrapsOnce(MAX_INT64, MIN_INT64);
  }

  // ----- the pool -----

  datatype Reserves = Reserves(x: uint64, y: uint64)

  function PoolReserves(state: Option<PoolState>): Reserves {
    if state.None? then Reserves(0, 0) else Reserves(state.value.assetX.amount, state.value.assetY.amount)
  }

  datatype Effect = Effect(txHash: string, deltaX: int64, deltaY: int64)

  datatype Mempool = Mempool(confirmed: Option<PoolState>, pending: map<string, Effect>, order: seq<string>)

  function EffectOf(confirmed: Option<PoolState>, txHash: string, state: PoolState): Effect {
    var before, after := PoolReserves(confirmed), PoolReserves(Some(state));
    Effect(txHash, ReserveDelta(after.x, before.x), ReserveDelta(after.y, before.y))
  }

  function Added(m: Mempool, txHash: string, state: Option<PoolState>): Mempool {
    if txHash in m.pending || state.None? then m
    else
      m.(pending := m.pending[txHash := EffectOf(m.confirmed, txHash, state.value)], order := m.order + [txHash])
  }

  function Removed(m: Mempool, txHash: string): Mempool {
    if txHash !in m.pending then m
    else m.(pending := m.pending - {txHash}, order := Text.WithoutFirst(m.order, txHash))
  }

  function Shifted(e: Effect, shiftX: int64, shiftY: int64): Effect {
    Effect(e.txHash, AddDeltaSaturating(e.deltaX, shiftX), AddDeltaSaturating(e.deltaY, shiftY))
  }

  function ShiftedAll(pending: map<string, Effect>, shiftX: int64, shiftY: int64): map<string, Effect> {
    map h | h in pending :: Shifted(pending[h], shiftX, shiftY)
  }

  function Rebased(m: Mempool, next: Option<PoolState>): Mempool {
    var before, after := PoolReserves(m.confirmed), PoolReserves(next);
    m.(confirmed := next,
       pending := ShiftedAll(m.pending, ReserveDelta(before.x, after.x), ReserveDelta(before.y, after.y)))
  }

  function Confirmed(m: Mempool, next: Option<PoolState>): Mempool {
    Rebased(if next.None? then m else Removed(m, next.value.txHash), next)
  }

  // ----- runs -----

  datatype Op = Add(txHash: string, state: Option<PoolState>) | Remove(txHash: string) | Confirm(state: Option<PoolState>)

  /** What was recorded of a pending transaction when it was added. */
  datatype Record = Record(reserves: Reserves, at: nat)

  datatype World = World(pool: Mempool, records: map<string, Record>, clock: nat)

  function Apply(m: Mempool, op: Op): Mempool {
    match op
    case Add(h, state) => Added(m, h, state)
    case Remove(h) => Removed(m, h)
    case Confirm(state) => Confirmed(m, state)
  }

  function Step(w: World, op: Op): World {
    World(Apply(w.pool, op),
          if op.Add? && op.state.Some? && op.txHash !in w.pool.pending
          then w.records[op.txHash := Record(PoolReserves(op.state), w.clock)] else w.records,
          w.clock + 1)
  }

  function Run(confirmed: Option<PoolState>, ops: seq<Op>): World {
    if ops == [] then World(Mempool(confirmed, map[], []), map[], 0)
    else Step(Run(confirmed, ops[..|ops| - 1]), ops[|ops| - 1])
  }

  predicate Small(r: Reserves) { r.x <= MAX_INT64 && r.y <= MAX_INT64 }

  predicate Fits(state: Option<PoolState>) { Small(PoolReserves(state)) }

  predicate OpFits(op: Op) { op.Remove? || Fits(op.state) }

  // ----- the listing -----

  predicate NoDuplicates(order: seq<string>) {
    forall i, j :: 0 <= i < j < |order| ==> order[i] != order[j]
  }

  ghost predicate Lists(m: Mempool) {
    && NoDuplicates(m.order)
    && (forall h :: h in m.order <==> h in m.pending)
    && (forall h :: h in m.pending ==> m.pending[h].txHash == h)
  }

  /** In the order of their addition. */
  ghost predicate Chronological(w: World) {
    && (forall h :: h in w.pool.pending ==> h in w.records && w.records[h].at < w.clock)
    && Ascending(w.pool.order, w.records)
  }

  predicate AddedBefore(records: map<string, Record>, a: string, b: string) {
    a in records && b in records ==> records[a].at < records[b].at
  }

  predicate Ascending(order: seq<string>, records: map<string, Record>) {
    forall i, j :: 0 <= i < j < |order| ==> AddedBefore(records, order[i], order[j])
  }

  lemma WithoutAscending(order: seq<string>, records: map<string, Record>, txHash: string)
    requires Ascending(order, records) && txHash in order
    ensures Ascending(Text.WithoutFirst(order, txHash), records)
  {
    var k := WithoutIs(order, txHash);
    var r := Text.WithoutFirst(order, txHash);
    forall i, j | 0 <= i < j < |r| ensures AddedBefore(records, r[i], r[j]) {
      var i', j' := if i < k then i else i + 1, if j < k then j else j + 1;
      assert r[i] == order[i'] && r[j] == order[j'];
    }
  }

  lemma AppendAscending(w: World, txHash: string, reserves: Reserves)
    requires Lists(w.pool) && Chronological(w) && txHash !in w.pool.pending
    ensures Ascending(w.pool.order + [txHash], w.records[txHash := Record(reserves, w.clock)])
  {
    var order, records := w.pool.order + [txHash], w.records[txHash := Record(reserves, w.clock)];
    forall i, j | 0 <= i < j < |order| ensures AddedBefore(records, order[i], order[j]) {
      assert order[i] in w.pool.order && order[i] in w.pool.pending;
      if j < |w.pool.order| {
        assert order[j] in w.pool.order && AddedBefore(w.records, order[i], order[j]);
      }
    }
  }

  lemma {:induction false} WithoutIs(order: seq<string>, txHash: string) returns (i: nat)
    requires txHash in order
    ensures i < |order| && order[i] == txHash && Text.WithoutFirst(order, txHash) == order[..i] + order[i + 1..]
  {
    if order[0] == txHash {
      i := 0;
    } else {
      var k := WithoutIs(order[1..], txHash);
      i := k + 1;
    }
  }

  /** Removal takes out the hash and keeps the order of the others. */
  lemma WithoutKeeps(order: seq<string>, txHash: string)
    requires NoDuplicates(order) && txHash in order
    ensures NoDuplicates(Text.WithoutFirst(order, txHash))
    ensures forall h :: h in Text.WithoutFirst(order, txHash) <==> h in order && h != txHash
  {
    var i := WithoutIs(order, txHash);
    assert order == order[..i] + [txHash] + order[i + 1..];
  }

  /** The pending transaction that an operation drops, if it is pending. */
  function Dropped(op: Op): Option<string> {
    match op
    case Add(_, _) => None
    case Remove(h) => Some(h)
    case Confirm(state) => if state.None? then None else Some(state.value.txHash)
  }

  lemma StepLists(m: Mempool, op: Op)
    requires Lists(m)
    ensures Lists(Apply(m, op))
  {
    var drop := Dropped(op);
    if drop.Some? && drop.value in m.pending {
      WithoutKeeps(m.order, drop.value);
    }
  }

  lemma StepChronological(w: World, op: Op)
    requires Lists(w.pool) && Chronological(w)
    ensures Chronological(Step(w, op))
  {
    var drop := Dropped(op);
    if drop.Some? && drop.value in w.pool.pending {
      WithoutAscending(w.pool.order, w.records, drop.value);
    }
    if op.Add? && op.state.Some? && op.txHash !in w.pool.pending {
      AppendAscending(w, op.txHash, PoolReserves(op.state));
    }
  }

  /** Over every run the order is a listing of the pending transactions in the order of their
      addition. */
  lemma {:induction false} RunLists(confirmed: Option<PoolState>, ops: seq<Op>)
    ensures Lists(Run(confirmed, ops).pool) && Chronological(Run(confirmed, ops))
  {
    if ops != [] {
      var rest := ops[..|ops| - 1];
      RunLists(confirmed, rest);
      StepLists(Run(confirmed, rest).pool, ops[|ops| - 1]);
      StepChronological(Run(confirmed, rest), ops[|ops| - 1]);
    }
  }

  // ----- exactness -----

  function FreshEffect(txHash: string, recorded: Reserves, confirmed: Reserves): Effect {
    Effect(txHash, ReserveDelta(recorded.x, confirmed.x), ReserveDelta(recorded.y, confirmed.y))
  }

  /** Every pending effect is the one that would be computed now from the reserves recorded at its
      addition. */
  ghost predicate Fresh(m: Mempool, records: map<string, Record>) {
    forall h :: h in m.pending && h in records ==>
      m.pending[h] == FreshEffect(h, records[h].reserves, PoolReserves(m.confirmed))
  }

  predicate LosslessStep(recorded: Reserves, confirmed: Reserves, next: Reserves) {
    Lossless(recorded.x - confirmed.x, confirmed.x - next.x) && Lossless(recorded.y - confirmed.y, confirmed.y - next.y)
  }

  /** The confirmation is lossless for every transaction that stays pending. */
  ghost predicate LosslessFor(m: Mempool, next: Option<PoolState>, records: map<string, Record>) {
    forall h :: h in m.pending && h in records && Dropped(Confirm(next)) != Some(h) ==>
      LosslessStep(records[h].reserves, PoolReserves(m.confirmed), PoolReserves(next))
  }

  lemma ShiftIsFreshIff(h: string, recorded: Reserves, confirmed: Reserves, next: Reserves)
    ensures Shifted(FreshEffect(h, recorded, confirmed), ReserveDelta(confirmed.x, next.x), ReserveDelta(confirmed.y, next.y))
         == FreshEffect(h, recorded, next)
       <==> LosslessStep(recorded, confirmed, next)
  {
    RebaseIsExactIff(recorded.x, confirmed.x, next.x);
    RebaseIsExactIff(recorded.y, confirmed.y, next.y);
  }

  lemma ConfirmIsFreshIff(m: Mempool, next: Option<PoolState>, records: map<string, Record>)
    requires Fresh(m, records)
    ensures Fresh(Confirmed(m, next), records) <==> LosslessFor(m, next, records)
  {
    var after := Confirmed(m, next);
    assert forall h :: h in after.pending <==> h in m.pending && Dropped(Confirm(next)) != Some(h);
    forall h | h in after.pending && h in records
      ensures after.pending[h] == FreshEffect(h, records[h].reserves, PoolReserves(next))
         <==> LosslessStep(records[h].reserves, PoolReserves(m.confirmed), PoolReserves(next))
    {
      ShiftIsFreshIff(h, records[h].reserves, PoolReserves(m.confirmed), PoolReserves(next));
    }
  }

  lemma StepIsFreshIff(w: World, op: Op)
    requires Fresh(w.pool, w.records)
    ensures var n := Step(w, op);
      Fresh(n.pool, n.records) <==> (op.Confirm? ==> LosslessFor(w.pool, op.state, w.records))
  {
    if op.Confirm? {
      ConfirmIsFreshIff(w.pool, op.state, w.records);
    }
  }

  ghost predicate FreshAt(confirmed: Option<PoolState>, ops: seq<Op>, n: nat)
    requires n <= |ops|
  {
    Fresh(Run(confirmed, ops[..n]).pool, Run(confirmed, ops[..n]).records)
  }

  ghost predicate LosslessAt(confirmed: Option<PoolState>, ops: seq<Op>, n: nat)
    requires n < |ops|
  {
    ops[n].Confirm? ==> LosslessFor(Run(confirmed, ops[..n]).pool, ops[n].state, Run(confirmed, ops[..n]).records)
  }

  lemma NextIsFreshIff(confirmed: Option<PoolState>, ops: seq<Op>, n: nat)
    requires n < |ops| && FreshAt(confirmed, ops, n)
    ensures FreshAt(confirmed, ops, n + 1) <==> LosslessAt(confirmed, ops, n)
  {
    assert ops[..n + 1][..n] == ops[..n];
    StepIsFreshIff(Run(confirmed, ops[..n]), ops[n]);
  }

  lemma {:induction false} FreshUpTo(confirmed: Option<PoolState>, ops: seq<Op>, n: nat)
    requires n <= |ops| && forall k: nat :: k < n ==> LosslessAt(confirmed, ops, k)
    ensures FreshAt(confirmed, ops, n)
  {
    if n > 0 {
      FreshUpTo(confirmed, ops, n - 1);
      NextIsFreshIff(confirmed, ops, n - 1);
    }
  }

  /** The deltas are those computed afresh throughout a run exactly when every confirmation of the
      run is lossless for the transactions it leaves pending. */
  lemma RunStaysFreshIff(confirmed: Option<PoolState>, ops: seq<Op>)
    ensures (forall n: nat :: n <= |ops| ==> FreshAt(confirmed, ops, n))
       <==> (forall n: nat :: n < |ops| ==> LosslessAt(confirmed, ops, n))
  {
    if forall n: nat :: n < |ops| ==> LosslessAt(confirmed, ops, n) {
      forall n: nat | n <= |ops| ensures FreshAt(confirmed, ops, n) {
        FreshUpTo(confirmed, ops, n);
      }
    }
    if forall n: nat :: n <= |ops| ==> FreshAt(confirmed, ops, n) {
      forall n: nat | n < |ops| ensures LosslessAt(confirmed, ops, n) {
        assert FreshAt(confirmed, ops, n) && FreshAt(confirmed, ops, n + 1);
        NextIsFreshIff(confirmed, ops, n);
      }
    }
  }

  /** Confirmed reserve plus delta is the reserve recorded for the pending transaction. */
  predicate LeadsTo(confirmed: Reserves, e: Effect, recorded: Reserves) {
    confirmed.x + e.deltaX == recorded.x && confirmed.y + e.deltaY == recorded.y
  }

  /** A delta computed afresh leads to the recorded reserves exactly when the differences fit. */
  lemma FreshLeadsIff(h: string, recorded: Reserves, confirmed: Reserves)
    ensures LeadsTo(confirmed, FreshEffect(h, recorded, confirmed), recorded)
       <==> InInt64(recorded.x - confirmed.x) && InInt64(recorded.y - confirmed.y)
  {
    ReserveDeltaIsClamp(recorded.x, confirmed.x);
    ReserveDeltaIsClamp(recorded.y, confirmed.y);
  }

  ghost predicate AllSmall(w: World) {
    Small(PoolReserves(w.pool.confirmed)) && forall h :: h in w.records ==> Small(w.records[h].reserves)
  }

  lemma {:induction false} RunIsSmall(confirmed: Option<PoolState>, ops: seq<Op>)
    requires Fits(confirmed) && forall op :: op in ops ==> OpFits(op)
    ensures AllSmall(Run(confirmed, ops))
  {
    if ops != [] {
      var rest, op := ops[..|ops| - 1], ops[|ops| - 1];
      assert op in ops && forall o :: o in rest ==> o in ops;
      RunIsSmall(confirmed, rest);
    }
  }

  /** Over every run whose reserves fit int64, each delta leads from the confirmed reserve to the
      one recorded at its addition. */
  lemma RunIsExact(confirmed: Option<PoolState>, ops: seq<Op>)
    requires Fits(confirmed) && forall op :: op in ops ==> OpFits(op)
    ensures var w := Run(confirmed, ops);
      forall h :: h in w.pool.pending ==>
        h in w.records && LeadsTo(PoolReserves(w.pool.confirmed), w.pool.pending[h], w.records[h].reserves)
  {
    forall n: nat | n < |ops| ensures LosslessAt(confirmed, ops, n) {
      assert ops[n] in ops && forall o :: o in ops[..n] ==> o in ops;
      RunIsSmall(confirmed, ops[..n]);
    }
    FreshUpTo(confirmed, ops, |ops|);
    assert ops[..|ops|] == ops;
    RunIsSmall(confirmed, ops);
    RunLists(confirmed, ops);
    var w := Run(confirmed, ops);
    forall h | h in w.pool.pending
      ensures LeadsTo(PoolReserves(w.pool.confirmed), w.pool.pending[h], w.records[h].reserves)
    {
      FreshLeadsIff(h, w.records[h].reserves, PoolReserves(w.pool.confirmed));
    }
  }

  // ----- the pending transactions by the operations -----

  predicate Takes(op: Op, h: string) { op.Add? && op.txHash == h && op.state.Some? }

  /** The n-th operation added the transaction, and none since has dropped it. */
  ghost predicate AddedAt(ops: seq<Op>, n: int, h: string) {
    && 0 <= n < |ops| && Takes(ops[n], h)
    && forall k :: n < k < |ops| ==> Dropped(ops[k]) != Some(h)
  }

  lemma AddedAfter(ops: seq<Op>, op: Op, n: int, h: string)
    ensures AddedAt(ops + [op], n, h) <==> (AddedAt(ops, n, h) && Dropped(op) != Some(h)) || (n == |ops| && Takes(op, h))
  {
    var more := ops + [op];
    assert more[|ops|] == op && forall k :: 0 <= k < |ops| ==> more[k] == ops[k];
    if AddedAt(more, n, h) && n < |ops| {
      assert Dropped(more[|ops|]) != Some(h);
      forall k | n < k < |ops| ensures Dropped(ops[k]) != Some(h) {
        assert Dropped(more[k]) != Some(h);
      }
    }
  }

  /** The first of the additions still in force, with the reserves it recorded. */
  ghost predicate RecordedAt(ops: seq<Op>, h: string, r: Record) {
    && AddedAt(ops, r.at, h) && (forall n :: n < r.at ==> !AddedAt(ops, n, h))
    && r.reserves.x == ops[r.at].state.value.assetX.amount && r.reserves.y == ops[r.at].state.value.assetY.amount
  }

  ghost predicate IsPending(ops: seq<Op>, h: string) { exists n :: AddedAt(ops, n, h) }

  lemma StepPending(w: World, ops: seq<Op>, op: Op, h: string)
    requires Lists(w.pool) && w.clock == |ops|
    requires h in w.pool.pending <==> IsPending(ops, h)
    requires h in w.pool.pending ==> h in w.records && RecordedAt(ops, h, w.records[h])
    ensures h in Step(w, op).pool.pending <==> IsPending(ops + [op], h)
    ensures h in Step(w, op).pool.pending ==> h in Step(w, op).records && RecordedAt(ops + [op], h, Step(w, op).records[h])
  {
    forall n ensures AddedAt(ops + [op], n, h) <==> (AddedAt(ops, n, h) && Dropped(op) != Some(h)) || (n == |ops| && Takes(op, h)) {
      AddedAfter(ops, op, n, h);
    }
    if IsPending(ops, h) && Dropped(op) != Some(h) {
      var n :| AddedAt(ops, n, h);
      assert AddedAt(ops + [op], n, h);
    }
    if Takes(op, h) {
      assert AddedAt(ops + [op], |ops|, h);
    }
  }

  /** After any run a transaction is pending exactly when some addition of it was not followed by its
      removal or confirmation, and the reserves recorded are those of the first such addition. */
  lemma {:induction false} PendingIff(confirmed: Option<PoolState>, ops: seq<Op>, h: string)
    ensures var w := Run(confirmed, ops);
      && w.clock == |ops|
      && (h in w.pool.pending <==> IsPending(ops, h))
      && (h in w.pool.pending ==> h in w.records && RecordedAt(ops, h, w.records[h]))
  {
    if ops != [] {
      var rest, op := ops[..|ops| - 1], ops[|ops| - 1];
      assert ops == rest + [op];
      PendingIff(confirmed, rest, h);
      RunLists(confirmed, rest);
      StepPending(Run(confirmed, rest), rest, op, h);
    }
  }

  /** The state that confirmation left, if any. */
  function LastConfirmed(confirmed: Option<PoolState>, ops: seq<Op>): Option<PoolState> {
    if ops == [] then confirmed
    else if ops[|ops| - 1].Confirm? then ops[|ops| - 1].state
    else LastConfirmed(confirmed, ops[..|ops| - 1])
  }

  lemma {:induction false} ConfirmedIsLast(confirmed: Option<PoolState>, ops: seq<Op>)
    ensures Run(confirmed, ops).pool.confirmed == LastConfirmed(confirmed, ops)
  {
    if ops != [] {
      ConfirmedIsLast(confirmed, ops[..|ops| - 1]);
    }
  }

  /** The deltas lead from the reserves of one state, or from nothing, to those of another. */
  predicate LeadsToState(from: Option<PoolState>, e: Effect, state: PoolState) {
    && (if from.Some? then from.value.assetX.amount else 0) + e.deltaX == state.assetX.amount
    && (if from.Some? then from.value.assetY.amount else 0) + e.deltaY == state.assetY.amount
  }

  /** By the operations alone: over every run whose reserves fit int64, each pending delta leads from
      the reserves of the state confirmed last to those of the state first added. */
  lemma RunLeadsToState(confirmed: Option<PoolState>, ops: seq<Op>, h: string)
    requires Fits(confirmed) && forall op :: op in ops ==> OpFits(op)
    requires h in Run(confirmed, ops).pool.pending
    ensures exists n ::
      && AddedAt(ops, n, h) && (forall m :: m < n ==> !AddedAt(ops, m, h))
      && LeadsToState(LastConfirmed(confirmed, ops), Run(confirmed, ops).pool.pending[h], ops[n].state.value)
  {
    RunIsExact(confirmed, ops);
    PendingIff(confirmed, ops, h);
    ConfirmedIsLast(confirmed, ops);
    var n := Run(confirmed, ops).records[h].at;
    assert AddedAt(ops, n, h);
  }
}
