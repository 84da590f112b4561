/** Djed oracle observations: what makes one authentic and usable, and the book of produced and
    spent outputs kept from a chain that rolls back (price/djed/oracle.go, price/djed/tracker.go).
    Time is in nanoseconds. */
module DjedSpec {
  import opened Words
  import opened Dex
  import Text

  const MAINNET_ORACLE_ADDRESS := "addr1wxyc99q448xlkv4q2y3truxq7j2msr6hkqqg0wmzz9n9r6q8j7kpa"
  const ORACLE_NFT := AssetClass(
    [0x81, 0x5a, 0xca, 0x02, 0x04, 0x2b, 0xa9, 0x18, 0x8a, 0x2c, 0xa4, 0xf8, 0xce, 0x7b,
     0x27, 0x60, 0x46, 0xe2, 0x37, 0x6b, 0x4b, 0xce, 0x56, 0x39, 0x13, 0x42, 0x29, 0x9e],
    [0x44, 0x6a, 0x65, 0x64, 0x4f, 0x72, 0x61, 0x63, 0x6c, 0x65, 0x4e, 0x46, 0x54])
  const USD: seq<byte> := [0x55, 0x53, 0x44]
  const ORACLE_SIGNATURE_LENGTH := 64

  datatype DjedError =
    | ErrInvalidDatum
    | ErrInvalidRate
    | ErrWrongAddress
    | ErrMissingNFT
    | ErrWrongPolicy
    | ErrWrongQuote
    | ErrNotYetValid
    | ErrExpired
    | ErrConflictingObservation
    | ErrNoCurrentObservation

  datatype OutputRef = OutputRef(txHash: string, txIndex: uint32)

  datatype Validity = Validity(from: int, fromInclusive: bool, until: int, untilInclusive: bool) {
    /** The interval as a set of times. */
    predicate Contains(now: int) {
      && (from < now || (from == now && fromInclusive))
      && (now < until || (now == until && untilInclusive))
    }
  }

  datatype OracleDatum = OracleDatum(
    signature: seq<byte>, priceNumerator: uint64, priceDenominator: uint64, validity: Validity,
    expressedIn: seq<byte>, oraclePolicy: seq<byte>)

  datatype OracleUTxO = OracleUTxO(
    address: string, assets: seq<AssetAmount>, txHash: string, txIndex: uint32, transactionIndex: uint32,
    slot: uint64, blockHash: string)
  {
    function Ref(): OutputRef { OutputRef(txHash, txIndex) }
  }

  datatype Observation = Observation(
    priceNumerator: uint64, priceDenominator: uint64, validity: Validity, txHash: string, txIndex: uint32,
    transactionIndex: uint32, slot: uint64, blockHash: string)
  {
    function Ref(): OutputRef { OutputRef(txHash, txIndex) }

    function ValidateAt(now: int): Option<DjedError> { ValidateInterval(validity, now) }
  }

  // ----- authenticity -----

  function ValidateInterval(v: Validity, now: int): Option<DjedError> {
    if v.from > v.until || (v.from == v.until && (!v.fromInclusive || !v.untilInclusive)) then Some(ErrInvalidDatum)
    else if now < v.from || (now == v.from && !v.fromInclusive) then Some(ErrNotYetValid)
    else if now > v.until || (now == v.until && !v.untilInclusive) then Some(ErrExpired)
    else None
  }

  /** A datum is usable at a time exactly when the time lies in its interval. */
  lemma IntervalIsMembership(v: Validity, now: int)
    ensures ValidateInterval(v, now) == None <==> v.Contains(now)
    ensures ValidateInterval(v, now) == Some(ErrInvalidDatum) ==> forall t :: !v.Contains(t)
    ensures ValidateInterval(v, now) == Some(ErrNotYetValid) ==> forall t :: t <= now ==> !v.Contains(t)
    ensures ValidateInterval(v, now) == Some(ErrExpired) ==> forall t :: t >= now ==> !v.Contains(t)
  {
  }

  function ValidateMainnet(d: OracleDatum, utxo: OracleUTxO, now: int): Option<DjedError> {
    if utxo.address != MAINNET_ORACLE_ADDRESS then Some(ErrWrongAddress)
    else if AssetAmount(ORACLE_NFT, 1) !in utxo.assets then Some(ErrMissingNFT)
    else if |d.signature| != ORACLE_SIGNATURE_LENGTH then Some(ErrInvalidDatum)
    else if d.oraclePolicy != ORACLE_NFT.policyId then Some(ErrWrongPolicy)
    else if d.expressedIn != USD then Some(ErrWrongQuote)
    else if d.priceNumerator == 0 || d.priceDenominator == 0 then Some(ErrInvalidRate)
    else ValidateInterval(d.validity, now)
  }

  /** A datum that does not decode is None. */
  function ParseMainnetObservation(datum: Option<OracleDatum>, utxo: OracleUTxO, now: int)
    : Result<Observation, DjedError>
  {
    if datum.None? then Err(ErrInvalidDatum)
    else
      match ValidateMainnet(datum.value, utxo, now)
      case Some(e) => Err(e)
      case None =>
        Ok(Observation(datum.value.priceNumerator, datum.value.priceDenominator, datum.value.validity,
                       utxo.txHash, utxo.txIndex, utxo.transactionIndex, utxo.slot, utxo.blockHash))
  }

  // ----- order -----

  /** Chain order, with the hash as a last resort. */
  predicate ObservationAfter(candidate: Observation, current: Observation) {
    if candidate.slot != current.slot then candidate.slot > current.slot
    else if candidate.transactionIndex != current.transactionIndex then
      candidate.transactionIndex > current.transactionIndex
    else if candidate.txIndex != current.txIndex then candidate.txIndex > current.txIndex
    else Text.LexLess(current.txHash, candidate.txHash)
  }

  lemma AfterTotal(a: Observation, b: Observation)
    requires a.Ref() != b.Ref()
    ensures ObservationAfter(a, b) || ObservationAfter(b, a)
  {
    Text.LexTotal(a.txHash, b.txHash);
  }

  lemma AfterAsymmetric(a: Observation, b: Observation)
    requires ObservationAfter(a, b)
    ensures !ObservationAfter(b, a)
  {
    if Text.LexLess(b.txHash, a.txHash) {
      Text.LexAsymmetric(b.txHash, a.txHash);
    }
  }

  lemma AfterTransitive(a: Observation, b: Observation, c: Observation)
    requires ObservationAfter(a, b) && ObservationAfter(b, c)
    ensures ObservationAfter(a, c)
  {
    if Text.LexLess(c.txHash, b.txHash) && Text.LexLess(b.txHash, a.txHash) {
      Text.LexTransitive(c.txHash, b.txHash, a.txHash);
    }
  }

  // ----- the book -----

  datatype Tracked = Tracked(observation: Observation, spentAt: Option<uint64>)

  type Book = map<OutputRef, Tracked>

  /** Every entry stands under its own output. */
  predicate BookOk(book: Book) { forall r :: r in book ==> book[r].observation.Ref() == r }

  function Applied(book: Book, o: Observation): Book {
    if o.Ref() in book then book else book[o.Ref() := Tracked(o, None)]
  }

  function Consumed(book: Book, ref: OutputRef, slot: uint64): Book {
    if ref in book then book[ref := Tracked(book[ref].observation, Some(slot))] else book
  }

  predicate Outdated(t: Tracked, beforeSlot: uint64) { t.spentAt.Some? && t.spentAt.value < beforeSlot }

  function Pruned(book: Book, beforeSlot: uint64): Book {
    map r | r in book && !Outdated(book[r], beforeSlot) :: book[r]
  }

  function Restored(t: Tracked, slot: uint64): Tracked {
    if t.spentAt.Some? && t.spentAt.value > slot then Tracked(t.observation, None) else t
  }

  function RolledBack(book: Book, slot: uint64): Book {
    map r | r in book && book[r].observation.slot <= slot :: Restored(book[r], slot)
  }

  function Unspent(book: Book): set<Observation> {
    set r | r in book && book[r].spentAt.None? :: book[r].observation
  }

  // ----- the current observation -----

  predicate Usable(o: Observation, now: int) { o.ValidateAt(now).None? }

  ghost predicate NewestUsable(unspent: set<Observation>, now: int, o: Observation) {
    && o in unspent && Usable(o, now)
    && forall c :: c in unspent && c != o && Usable(c, now) ==> ObservationAfter(o, c)
  }

  ghost predicate NewestUnusable(unspent: set<Observation>, now: int, o: Observation) {
    && o in unspent && (forall c :: c in unspent ==> !Usable(c, now))
    && forall c :: c in unspent && c != o ==> ObservationAfter(o, c)
  }

  /** The newest usable unspent observation, or the error of the newest unspent one when none is
      usable, or that there is none. */
  ghost predicate IsCurrent(unspent: set<Observation>, now: int, r: Result<Observation, DjedError>) {
    match r
    case Ok(o) => NewestUsable(unspent, now, o)
    case Err(e) =>
      if unspent == {} then e == ErrNoCurrentObservation
      else exists o :: NewestUnusable(unspent, now, o) && o.ValidateAt(now) == Some(e)
  }

  /** The answer does not depend on the order in which the map is visited. */
  lemma CurrentIsUnique(unspent: set<Observation>, now: int,
                        r: Result<Observation, DjedError>, r': Result<Observation, DjedError>)
    requires IsCurrent(unspent, now, r) && IsCurrent(unspent, now, r')
    ensures r == r'
  {
    forall a, b | ObservationAfter(a, b) ensures !ObservationAfter(b, a) {
      AfterAsymmetric(a, b);
    }
  }

  // ----- exact undo -----

  datatype ChainEvent =
    | Produced(observation: Observation)
    | Spent(ref: OutputRef, slot: uint64)
  {
    function At(): uint64 { if Produced? then observation.slot else slot }
  }

  function Next(book: Book, e: ChainEvent): Book {
    match e
    case Produced(o) => Applied(book, o)
    case Spent(ref, slot) => Consumed(book, ref, slot)
  }

  function Replay(events: seq<ChainEvent>): Book {
    if events == [] then map[] else Next(Replay(events[..|events| - 1]), events[|events| - 1])
  }

  function UpTo(events: seq<ChainEvent>, slot: uint64): seq<ChainEvent> {
    if events == [] then []
    else
      UpTo(events[..|events| - 1], slot) + (if events[|events| - 1].At() <= slot then [events[|events| - 1]] else [])
  }

  /** An output is not produced in two ways, nor spent at two slots. */
  predicate Compatible(a: ChainEvent, b: ChainEvent) {
    match (a, b)
    case (Produced(o), Produced(p)) => o.Ref() == p.Ref() ==> o == p
    case (Spent(r, s), Spent(q, t)) => r == q ==> s == t
    case _ => true
  }

  ghost predicate Consistent(events: seq<ChainEvent>) {
    forall a, b :: a in events && b in events ==> Compatible(a, b)
  }

  /** What the book says of an output is what the events say. */
  lemma {:induction false} ReplayTellsEvents(events: seq<ChainEvent>, r: OutputRef)
    requires r in Replay(events)
    ensures Produced(Replay(events)[r].observation) in events && Replay(events)[r].observation.Ref() == r
    ensures Replay(events)[r].spentAt.Some? ==> Spent(r, Replay(events)[r].spentAt.value) in events
  {
    if events != [] {
      var rest, e := events[..|events| - 1], events[|events| - 1];
      assert events == rest + [e];
      if r in Replay(rest) {
        ReplayTellsEvents(rest, r);
      }
    }
  }

  lemma ReplayOk(events: seq<ChainEvent>)
    ensures BookOk(Replay(events))
  {
    forall r | r in Replay(events) ensures Replay(events)[r].observation.Ref() == r {
      ReplayTellsEvents(events, r);
    }
  }

  lemma UpToSome(events: seq<ChainEvent>, slot: uint64, e: ChainEvent)
    ensures e in UpTo(events, slot) <==> e in events && e.At() <= slot
  {
    if events != [] {
      UpToSome(events[..|events| - 1], slot, e);
      assert events == events[..|events| - 1] + [events[|events| - 1]];
    }
  }

  lemma UndoProduced(book: Book, o: Observation, slot: uint64)
    requires o.Ref() in book ==> book[o.Ref()].observation == o
    ensures RolledBack(Applied(book, o), slot)
         == if o.slot <= slot then Applied(RolledBack(book, slot), o) else RolledBack(book, slot)
  {
    var before, after := RolledBack(book, slot), RolledBack(Applied(book, o), slot);
    if o.Ref() !in book {
      assert o.slot <= slot ==> after == before[o.Ref() := Tracked(o, None)];
      assert o.slot > slot ==> after == before;
    }
  }

  lemma UndoSpent(book: Book, ref: OutputRef, at: uint64, slot: uint64)
    requires ref in book && book[ref].spentAt.Some? ==> book[ref].spentAt.value == at
    ensures RolledBack(Consumed(book, ref, at), slot)
         == if at <= slot then Consumed(RolledBack(book, slot), ref, at) else RolledBack(book, slot)
  {
  }

  /** Rolling back is replaying the events up to the point, for any events that produce each
      output in one way and spend it at one slot. */
  lemma {:induction false} RollbackIsReplay(events: seq<ChainEvent>, slot: uint64)
    requires Consistent(events)
    ensures RolledBack(Replay(events), slot) == Replay(UpTo(events, slot))
  {
    if events != [] {
      var rest, e := events[..|events| - 1], events[|events| - 1];
      var book := Replay(rest);
      assert Consistent(rest);
      RollbackIsReplay(rest, slot);
      ReplayOk(rest);
      var kept := UpTo(rest, slot);
      assert (kept + [e])[..|kept + [e]| - 1] == kept;
      assert kept + [] == kept;
      match e {
        case Produced(o) =>
          if o.Ref() in book {
            ReplayTellsEvents(rest, o.Ref());
            assert Compatible(Produced(book[o.Ref()].observation), e);
          }
          UndoProduced(book, o, slot);
        case Spent(ref, at) =>
          if ref in book && book[ref].spentAt.Some? {
            ReplayTellsEvents(rest, ref);
            assert Compatible(Spent(ref, book[ref].spentAt.value), e);
          }
          UndoSpent(book, ref, at, slot);
      }
    }
  }

  // ----- runs with pruning -----

  datatype Step = Deliver(event: ChainEvent) | Rollback(slot: uint64) | Prune(beforeSlot: uint64)

  /** What the tracker holds, the events on the chain, and the highest slot pruned before. */
  datatype World = World(book: Book, chain: seq<ChainEvent>, horizon: nat)

  function Start(): World { World(map[], [], 0) }

  function Take(w: World, step: Step): World {
    match step
    case Deliver(e) => w.(book := Next(w.book, e), chain := w.chain + [e])
    case Rollback(slot) => w.(book := RolledBack(w.book, slot), chain := UpTo(w.chain, slot))
    case Prune(beforeSlot) => w.(book := Pruned(w.book, beforeSlot), horizon := Max(w.horizon, beforeSlot))
  }

  /** A production of an output that was pruned as spent and is still on the chain. */
  predicate Resurrects(w: World, e: ChainEvent) {
    e.Produced? && e.observation.Ref() in Replay(w.chain) && e.observation.Ref() !in w.book
  }

  /** The chain produces an output in one way and spends it at one slot, and does not roll back to
      before the last slot that was pruned. An event may be delivered again, but not the production
      of a pruned output. */
  ghost predicate Allowed(w: World, step: Step) {
    match step
    case Deliver(e) => Consistent(w.chain + [e]) && !Resurrects(w, e)
    case Rollback(slot) => slot + 1 >= w.horizon
    case Prune(_) => true
  }

  function Run(steps: seq<Step>): World {
    if steps == [] then Start() else Take(Run(steps[..|steps| - 1]), steps[|steps| - 1])
  }

  ghost predicate IsRun(steps: seq<Step>) {
    steps == [] || (IsRun(steps[..|steps| - 1]) && Allowed(Run(steps[..|steps| - 1]), steps[|steps| - 1]))
  }

  /** The book lacks nothing but entries spent before the horizon. */
  ghost predicate Hides(full: Book, book: Book, horizon: nat) {
    && (forall r :: r in book ==> r in full && full[r] == book[r])
    && (forall r :: r in full && r !in book ==> full[r].spentAt.Some? && full[r].spentAt.value < horizon)
  }

  lemma KnownOnChain(chain: seq<ChainEvent>, e: ChainEvent)
    requires Consistent(chain + [e])
    ensures e.Produced? && e.observation.Ref() in Replay(chain) ==>
            Replay(chain)[e.observation.Ref()].observation == e.observation
    ensures e.Spent? && e.ref in Replay(chain) ==> Replay(chain)[e.ref].spentAt in {None, Some(e.slot)}
  {
    assert e in chain + [e];
    assert forall a :: a in chain ==> a in chain + [e] && Compatible(a, e);
    var ref := if e.Produced? then e.observation.Ref() else e.ref;
    if ref in Replay(chain) {
      ReplayTellsEvents(chain, ref);
    }
  }

  lemma UpToConsistent(chain: seq<ChainEvent>, slot: uint64)
    requires Consistent(chain)
    ensures Consistent(UpTo(chain, slot))
  {
    forall a, b | a in UpTo(chain, slot) && b in UpTo(chain, slot) ensures Compatible(a, b) {
      UpToSome(chain, slot, a);
      UpToSome(chain, slot, b);
    }
  }

  lemma HidesNext(full: Book, book: Book, horizon: nat, e: ChainEvent)
    requires Hides(full, book, horizon)
    requires e.Produced? && e.observation.Ref() in full ==> e.observation.Ref() in book
    requires e.Spent? && e.ref in full ==> full[e.ref].spentAt in {None, Some(e.slot)}
    ensures Hides(Next(full, e), Next(book, e), horizon)
  {
  }

  lemma HidesRolledBack(full: Book, book: Book, horizon: nat, slot: uint64)
    requires Hides(full, book, horizon) && slot + 1 >= horizon
    ensures Hides(RolledBack(full, slot), RolledBack(book, slot), horizon)
  {
  }

  lemma TakeHides(w: World, step: Step)
    requires Consistent(w.chain) && Hides(Replay(w.chain), w.book, w.horizon) && Allowed(w, step)
    ensures var n := Take(w, step); Consistent(n.chain) && Hides(Replay(n.chain), n.book, n.horizon)
  {
    match step {
      case Deliver(e) =>
        KnownOnChain(w.chain, e);
        assert (w.chain + [e])[..|w.chain|] == w.chain;
        HidesNext(Replay(w.chain), w.book, w.horizon, e);
      case Rollback(slot) =>
        RollbackIsReplay(w.chain, slot);
        UpToConsistent(w.chain, slot);
        HidesRolledBack(Replay(w.chain), w.book, w.horizon, slot);
      case Prune(_) =>
    }
  }

  /** On every run, the tracker's book is the replay of the current chain without some of the
      entries spent before the horizon. */
  lemma {:induction false} RunHides(steps: seq<Step>)
    requires IsRun(steps)
    ensures var w := Run(steps); Consistent(w.chain) && Hides(Replay(w.chain), w.book, w.horizon)
  {
    if steps != [] {
      RunHides(steps[..|steps| - 1]);
      TakeHides(Run(steps[..|steps| - 1]), steps[|steps| - 1]);
    }
  }

  /** Pruning is invisible: the current observation is that of the unpruned chain, at any time. */
  lemma PruningIsInvisible(steps: seq<Step>, now: int, r: Result<Observation, DjedError>)
    requires IsRun(steps)
    ensures Unspent(Run(steps).book) == Unspent(Replay(Run(steps).chain))
    ensures IsCurrent(Unspent(Run(steps).book), now, r) <==> IsCurrent(Unspent(Replay(Run(steps).chain)), now, r)
  {
    RunHides(steps);
  }

  /** Without pruning the book is exactly the replay of the current chain. */
  lemma UnprunedRunIsReplay(steps: seq<Step>)
    requires IsRun(steps) && Run(steps).horizon == 0
    ensures Run(steps).book == Replay(Run(steps).chain)
  {
    RunHides(steps);
  }

  // ----- the answer by the events -----

  lemma UnspentEntry(book: Book, o: Observation)
    requires BookOk(book)
    ensures o in Unspent(book) <==> o.Ref() in book && book[o.Ref()] == Tracked(o, None)
  {
  }

  /** The i-th event produces an output that no later event spends. */
  ghost predicate UnspentAt(events: seq<ChainEvent>, i: int) {
    && 0 <= i < |events| && events[i].Produced?
    && forall k :: i < k < |events| ==> !(events[k].Spent? && events[k].ref == events[i].observation.Ref())
  }

  /** Produced, and not spent after any of its deliveries. */
  ghost predicate NeverSpent(events: seq<ChainEvent>, o: Observation) {
    && (exists i :: 0 <= i < |events| && events[i] == Produced(o))
    && forall i :: 0 <= i < |events| && events[i] == Produced(o) ==> UnspentAt(events, i)
  }

  lemma {:induction false} ReplayKnows(events: seq<ChainEvent>, o: Observation)
    ensures Produced(o) in events ==> o.Ref() in Replay(events)
  {
    if events != [] {
      var rest := events[..|events| - 1];
      assert events == rest + [events[|events| - 1]];
      ReplayKnows(rest, o);
    }
  }

  lemma NeverSpentNext(rest: seq<ChainEvent>, e: ChainEvent, o: Observation)
    ensures NeverSpent(rest + [e], o) <==>
            (NeverSpent(rest, o) && !(e.Spent? && e.ref == o.Ref())) || (Produced(o) !in rest && e == Produced(o))
  {
    var events := rest + [e];
    assert events[|rest|] == e && forall i :: 0 <= i < |rest| ==> events[i] == rest[i];
    forall i | 0 <= i < |rest| && rest[i] == Produced(o)
      ensures UnspentAt(events, i) <==> UnspentAt(rest, i) && !(e.Spent? && e.ref == o.Ref())
    {
      if UnspentAt(events, i) {
        assert !(events[|rest|].Spent? && events[|rest|].ref == o.Ref());
        forall k | i < k < |rest| ensures !(rest[k].Spent? && rest[k].ref == o.Ref()) {
          assert events[k] == rest[k];
        }
      }
    }
  }

  /** An observation counts as unspent exactly when it was produced and not spent afterwards. */
  lemma {:induction false} UnspentIff(events: seq<ChainEvent>, o: Observation)
    requires Consistent(events)
    ensures o in Unspent(Replay(events)) <==> NeverSpent(events, o)
  {
    if events != [] {
      var rest, e := events[..|events| - 1], events[|events| - 1];
      assert events == rest + [e] && Consistent(rest);
      UnspentIff(rest, o);
      ReplayOk(rest);
      ReplayOk(events);
      NeverSpentNext(rest, e, o);
      ReplayKnows(rest, o);
      UnspentEntry(Replay(rest), o);
      UnspentEntry(Replay(events), o);
      if e.Produced? {
        KnownOnChain(rest, e);
        if o.Ref() in Replay(rest) {
          ReplayTellsEvents(rest, o.Ref());
        }
      }
    }
  }

  /** Outputs are produced in the order of the chain, each once. */
  ghost predicate InChainOrder(events: seq<ChainEvent>) {
    forall i, j :: 0 <= i < j < |events| && events[i].Produced? && events[j].Produced? ==>
      var a, b := events[i].observation, events[j].observation;
      a.slot < b.slot || (a.slot == b.slot &&
        (a.transactionIndex < b.transactionIndex || (a.transactionIndex == b.transactionIndex && a.txIndex < b.txIndex)))
  }

  /** The i-th event is the last to produce an output that is still unspent and usable. */
  ghost predicate LastUsableAt(events: seq<ChainEvent>, now: int, i: int) {
    && UnspentAt(events, i) && events[i].observation.validity.Contains(now)
    && forall j :: i < j < |events| && UnspentAt(events, j) ==> !events[j].observation.validity.Contains(now)
  }

  lemma UnspentOnce(events: seq<ChainEvent>, i: int)
    requires Consistent(events) && InChainOrder(events) && 0 <= i < |events| && events[i].Produced?
    ensures events[i].observation in Unspent(Replay(events)) <==> UnspentAt(events, i)
  {
    UnspentIff(events, events[i].observation);
    forall k | 0 <= k < |events| && events[k] == events[i] ensures k == i {
    }
  }

  lemma LastUsableIsNewest(events: seq<ChainEvent>, now: int, i: int)
    requires Consistent(events) && InChainOrder(events) && LastUsableAt(events, now, i)
    ensures NewestUsable(Unspent(Replay(events)), now, events[i].observation)
  {
    var o, unspent := events[i].observation, Unspent(Replay(events));
    UnspentOnce(events, i);
    IntervalIsMembership(o.validity, now);
    forall c | c in unspent && c != o && Usable(c, now) ensures ObservationAfter(o, c) {
      UnspentIff(events, c);
      IntervalIsMembership(c.validity, now);
      var j :| 0 <= j < |events| && events[j] == Produced(c);
      assert UnspentAt(events, j);
    }
  }

  lemma NewestIsLastUsable(events: seq<ChainEvent>, now: int, o: Observation) returns (i: int)
    requires Consistent(events) && InChainOrder(events) && NewestUsable(Unspent(Replay(events)), now, o)
    ensures LastUsableAt(events, now, i) && events[i] == Produced(o)
  {
    UnspentIff(events, o);
    IntervalIsMembership(o.validity, now);
    i :| 0 <= i < |events| && events[i] == Produced(o);
    forall j | i < j < |events| && UnspentAt(events, j) ensures !events[j].observation.validity.Contains(now) {
      var c := events[j].observation;
      UnspentOnce(events, j);
      IntervalIsMembership(c.validity, now);
      if ObservationAfter(o, c) {
        AfterAsymmetric(o, c);
      }
    }
  }

  /** After any run whose outputs arrive in the order of the chain, the answer is the output that was
      produced last among those still unspent and usable. */
  lemma CurrentIsLastProduced(steps: seq<Step>, now: int, o: Observation)
    requires IsRun(steps) && InChainOrder(Run(steps).chain)
    ensures IsCurrent(Unspent(Run(steps).book), now, Ok(o)) <==>
            exists i :: LastUsableAt(Run(steps).chain, now, i) && Run(steps).chain[i] == Produced(o)
  {
    RunHides(steps);
    PruningIsInvisible(steps, now, Ok(o));
    var chain := Run(steps).chain;
    if NewestUsable(Unspent(Replay(chain)), now, o) {
      var i := NewestIsLastUsable(chain, now, o);
    }
    if i :| LastUsableAt(chain, now, i) && chain[i] == Produced(o) {
      LastUsableIsNewest(chain, now, i);
    }
  }

  // ----- redelivery -----

  /** A consumed output that is delivered again after a pruning comes back as unspent exactly when
      it was pruned. */
  lemma RedeliveredAfterPruneIff(book: Book, o: Observation, beforeSlot: uint64)
    requires BookOk(book) && o.Ref() in book && book[o.Ref()].observation == o && book[o.Ref()].spentAt.Some?
    ensures o in Unspent(Applied(Pruned(book, beforeSlot), o)) <==> book[o.Ref()].spentAt.value < beforeSlot
  {
    var kept := Applied(Pruned(book, beforeSlot), o);
    assert o.Ref() in kept && kept[o.Ref()].observation == o;
    assert forall r :: r in kept && r != o.Ref() ==> kept[r].observation.Ref() == r;
    if book[o.Ref()].spentAt.value < beforeSlot {
      assert kept[o.Ref()].spentAt.None?;
    }
  }

  /** Produced at 1, spent at 5, pruned before 6 and delivered again: the output counts as unspent. */
  lemma RedeliveryResurrects(o: Observation)
    requires o.slot == 1
    ensures var book := Consumed(Applied(map[], o), o.Ref(), 5);
      Unspent(book) == {} && Unspent(Applied(book, o)) == {} && Unspent(Applied(Pruned(book, 6), o)) == {o}
  {
    var book := Consumed(Applied(map[], o), o.Ref(), 5);
    RedeliveredAfterPruneIff(book, o, 6);
    assert Pruned(book, 6) == map[];
  }

  /** After any run, delivering one more consistent event keeps the unspent observations those of
      the chain exactly when it is not the production of a pruned output. */
  lemma DeliveryKeepsUnspentIff(steps: seq<Step>, e: ChainEvent)
    requires IsRun(steps) && Consistent(Run(steps).chain + [e])
    ensures var w := Run(steps);
      Unspent(Next(w.book, e)) == Unspent(Replay(w.chain + [e])) <==> !Resurrects(w, e)
  {
    var w := Run(steps);
    RunHides(steps);
    assert (w.chain + [e])[..|w.chain|] == w.chain;
    if Resurrects(w, e) {
      var full, ref := Replay(w.chain), e.observation.Ref();
      KnownOnChain(w.chain, e);
      ReplayOk(w.chain);
      assert ref in Next(w.book, e) && Next(w.book, e)[ref] == Tracked(e.observation, None);
      assert e.observation in Unspent(Next(w.book, e));
      assert e.observation !in Unspent(full);
    } else {
      KnownOnChain(w.chain, e);
      HidesNext(Replay(w.chain), w.book, w.horizon, e);
    }
  }

  // ----- what a deep rollback costs -----

  /** Pruning before a slot and then rolling back loses an observation exactly when some output
      was produced up to the rollback point and spent after it but before the pruned slot. */
  lemma PruneThenRollbackIff(book: Book, beforeSlot: uint64, slot: uint64)
    requires BookOk(book)
    ensures Unspent(RolledBack(Pruned(book, beforeSlot), slot)) == Unspent(RolledBack(book, slot)) <==>
            forall r :: r in book && Outdated(book[r], beforeSlot) && book[r].observation.slot <= slot ==>
              book[r].spentAt.value <= slot
  {
    var kept, all := RolledBack(Pruned(book, beforeSlot), slot), RolledBack(book, slot);
    forall r | r in book && Outdated(book[r], beforeSlot) && book[r].observation.slot <= slot < book[r].spentAt.value
      ensures book[r].observation in Unspent(all) && book[r].observation !in Unspent(kept)
    {
      assert r in all && all[r].spentAt.None?;
    }
    forall o | o in Unspent(kept) ensures o in Unspent(all) {
      assert o.Ref() in kept && o.Ref() in all;
    }
    if forall r :: r in book && Outdated(book[r], beforeSlot) && book[r].observation.slot <= slot ==>
        book[r].spentAt.value <= slot {
      forall o | o in Unspent(all) ensures o in Unspent(kept) {
        assert o.Ref() in all && o.Ref() in kept;
      }
    }
  }

  /** What pruning before a slot loses to a rollback. */
  predicate Loses(book: Book, beforeSlot: uint64, slot: uint64, r: OutputRef) {
    r in book && Outdated(book[r], beforeSlot) && book[r].observation.slot <= slot < book[r].spentAt.value
  }

  lemma LostObservations(book: Book, beforeSlot: uint64, slot: uint64, o: Observation)
    requires BookOk(book)
    ensures o in Unspent(RolledBack(book, slot)) && o !in Unspent(RolledBack(Pruned(book, beforeSlot), slot))
       <==> Loses(book, beforeSlot, slot, o.Ref()) && book[o.Ref()].observation == o
  {
    var kept, all := RolledBack(Pruned(book, beforeSlot), slot), RolledBack(book, slot);
    assert o in Unspent(all) <==> o.Ref() in all && all[o.Ref()] == Tracked(o, None) by {
      UnspentEntry(all, o);
    }
    assert o in Unspent(kept) <==> o.Ref() in kept && kept[o.Ref()] == Tracked(o, None) by {
      UnspentEntry(kept, o);
    }
  }

  /** The observation is usable at some time, as it was when it was applied. */
  ghost predicate Live(o: Observation) { exists t: int :: Usable(o, t) }

  ghost predicate NewestAmong(s: set<Observation>, o: Observation) {
    o in s && forall c :: c in s && c != o ==> ObservationAfter(o, c)
  }

  ghost predicate DistinctRefs(s: set<Observation>) {
    forall a, b :: a in s && b in s && a != b ==> a.Ref() != b.Ref()
  }

  lemma {:induction false} NewestExists(s: set<Observation>) returns (o: Observation)
    requires s != {} && DistinctRefs(s)
    ensures NewestAmong(s, o)
  {
    var x :| x in s;
    if s == {x} {
      o := x;
    } else {
      var y := NewestExists(s - {x});
      AfterTotal(x, y);
      o := if ObservationAfter(x, y) then x else y;
      forall c | c in s && c != o ensures ObservationAfter(o, c) {
        if o == x && c != y {
          AfterTransitive(x, y, c);
        }
      }
    }
  }

  /** At that time no kept observation answers before this one. */
  ghost predicate Missed(kept: set<Observation>, o: Observation, now: int) {
    Usable(o, now) && forall c :: c in kept && Usable(c, now) ==> ObservationAfter(o, c)
  }

  ghost predicate DiffersAt(all: set<Observation>, kept: set<Observation>, now: int) {
    exists r :: IsCurrent(all, now, r) && !IsCurrent(kept, now, r)
  }

  lemma DiffersOnlyIfMissed(all: set<Observation>, kept: set<Observation>, now: int) returns (o: Observation, t: int)
    requires kept <= all && (forall c :: c in all ==> Live(c)) && DiffersAt(all, kept, now)
    ensures o in all && o !in kept && Missed(kept, o, t)
  {
    var r :| IsCurrent(all, now, r) && !IsCurrent(kept, now, r);
    if r.Ok? {
      o, t := r.value, now;
    } else {
      assert all == {} ==> kept == {};
      o :| NewestUnusable(all, now, o) && o.ValidateAt(now) == Some(r.error);
      assert o in kept ==> NewestUnusable(kept, now, o);
      t :| Usable(o, t);
    }
  }

  lemma MissedDiffers(all: set<Observation>, kept: set<Observation>, o: Observation, now: int)
    requires kept <= all && DistinctRefs(all) && o in all && o !in kept && Missed(kept, o, now)
    ensures DiffersAt(all, kept, now)
  {
    var usable := set c | c in all && Usable(c, now);
    assert o in usable;
    var w := NewestExists(usable);
    if ObservationAfter(o, w) {
      AfterAsymmetric(o, w);
    }
    assert w !in kept;
    var r: Result<Observation, DjedError> := Ok(w);
    assert IsCurrent(all, now, r) && !IsCurrent(kept, now, r);
  }

  ghost predicate MissedLoss(book: Book, beforeSlot: uint64, slot: uint64, r: OutputRef, t: int) {
    Loses(book, beforeSlot, slot, r) &&
    Missed(Unspent(RolledBack(Pruned(book, beforeSlot), slot)), book[r].observation, t)
  }

  lemma KeptAmongAll(book: Book, beforeSlot: uint64, slot: uint64)
    requires BookOk(book)
    ensures Unspent(RolledBack(Pruned(book, beforeSlot), slot)) <= Unspent(RolledBack(book, slot))
  {
    var kept, all := RolledBack(Pruned(book, beforeSlot), slot), RolledBack(book, slot);
    forall o | o in Unspent(kept) ensures o in Unspent(all) {
      UnspentEntry(kept, o);
      UnspentEntry(all, o);
    }
  }

  lemma ChangeIsMissedLoss(book: Book, beforeSlot: uint64, slot: uint64, now: int) returns (r: OutputRef, t: int)
    requires BookOk(book) && forall r :: r in book ==> Live(book[r].observation)
    requires DiffersAt(Unspent(RolledBack(book, slot)), Unspent(RolledBack(Pruned(book, beforeSlot), slot)), now)
    ensures MissedLoss(book, beforeSlot, slot, r, t)
  {
    var all, kept := Unspent(RolledBack(book, slot)), Unspent(RolledBack(Pruned(book, beforeSlot), slot));
    KeptAmongAll(book, beforeSlot, slot);
    forall c | c in all ensures Live(c) {
      UnspentEntry(RolledBack(book, slot), c);
    }
    var o: Observation;
    o, t := DiffersOnlyIfMissed(all, kept, now);
    LostObservations(book, beforeSlot, slot, o);
    r := o.Ref();
  }

  lemma MissedLossChanges(book: Book, beforeSlot: uint64, slot: uint64, r: OutputRef, t: int)
    requires BookOk(book) && MissedLoss(book, beforeSlot, slot, r, t)
    ensures DiffersAt(Unspent(RolledBack(book, slot)), Unspent(RolledBack(Pruned(book, beforeSlot), slot)), t)
  {
    KeptAmongAll(book, beforeSlot, slot);
    LostObservations(book, beforeSlot, slot, book[r].observation);
    MissedDiffers(Unspent(RolledBack(book, slot)), Unspent(RolledBack(Pruned(book, beforeSlot), slot)),
                  book[r].observation, t);
  }

  /** The answer of Current differs at some time exactly when at some time a lost observation is
      usable and every kept one that is usable then is older. */
  lemma PruneChangesCurrentIff(book: Book, beforeSlot: uint64, slot: uint64)
    requires BookOk(book) && forall r :: r in book ==> Live(book[r].observation)
    ensures (exists now :: DiffersAt(Unspent(RolledBack(book, slot)), Unspent(RolledBack(Pruned(book, beforeSlot), slot)), now))
       <==> (exists r, t :: MissedLoss(book, beforeSlot, slot, r, t))
  {
    if now :| DiffersAt(Unspent(RolledBack(book, slot)), Unspent(RolledBack(Pruned(book, beforeSlot), slot)), now) {
      var r, t := ChangeIsMissedLoss(book, beforeSlot, slot, now);
    }
    if r, t :| MissedLoss(book, beforeSlot, slot, r, t) {
      MissedLossChanges(book, beforeSlot, slot, r, t);
    }
  }

  /** Rolling back past a pruned spend loses the observation that it restores. */
  lemma PruneBeyondTheHorizonLoses(o: Observation)
    requires o.slot == 1
    ensures var book := Consumed(Applied(map[], o), o.Ref(), 5);
      Unspent(RolledBack(book, 4)) == {o} && Unspent(RolledBack(Pruned(book, 6), 4)) == {}
  {
    var book := Consumed(Applied(map[], o), o.Ref(), 5);
    assert o.Ref() in RolledBack(book, 4);
    assert Pruned(book, 6) == map[];
  }
}
