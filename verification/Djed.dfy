/** The Djed tracker: produced and spent oracle outputs of a local chain-sync stream
    (price/djed/tracker.go). */
module Djed {
  import opened Words
  import opened Dex
  import opened DjedSpec
  import Text

  /** What parsing lets through: a positive rate, usable at some time. */
  ghost predicate Proper(o: Observation) { o.priceNumerator > 0 && o.priceDenominator > 0 && Live(o) }

  lemma ParsedIsProper(datum: Option<OracleDatum>, utxo: OracleUTxO, now: int)
    requires ParseMainnetObservation(datum, utxo, now).Ok?
    ensures var o := ParseMainnetObservation(datum, utxo, now).value;
      Proper(o) && Usable(o, now) && o.Ref() == utxo.Ref() && o.slot == utxo.slot
  {
    assert Usable(ParseMainnetObservation(datum, utxo, now).value, now);
  }

  /** An output is accepted exactly when it lies at the oracle address, holds exactly one oracle token
      and carries a signed price in US dollars of the oracle policy, with a positive rate, whose
      interval holds the time; and what is recorded is that price and the position of the output. */
  lemma ParsedIff(datum: Option<OracleDatum>, utxo: OracleUTxO, now: int, o: Observation)
    ensures ParseMainnetObservation(datum, utxo, now) == Ok(o) <==>
      && datum.Some?
      && utxo.address == MAINNET_ORACLE_ADDRESS
      && (exists i :: 0 <= i < |utxo.assets| && utxo.assets[i].cls == ORACLE_NFT && utxo.assets[i].amount == 1)
      && |datum.value.signature| == 64 && datum.value.oraclePolicy == ORACLE_NFT.policyId
      && datum.value.expressedIn == ['U' as byte, 'S' as byte, 'D' as byte]
      && datum.value.priceNumerator > 0 && datum.value.priceDenominator > 0 && datum.value.validity.Contains(now)
      && o.priceNumerator == datum.value.priceNumerator && o.priceDenominator == datum.value.priceDenominator
      && o.validity == datum.value.validity && o.txHash == utxo.txHash && o.txIndex == utxo.txIndex
      && o.transactionIndex == utxo.transactionIndex && o.slot == utxo.slot && o.blockHash == utxo.blockHash
  {
    assert ['U' as byte, 'S' as byte, 'D' as byte] == USD;
    if datum.Some? {
      IntervalIsMembership(datum.value.validity, now);
    }
    if i :| 0 <= i < |utxo.assets| && utxo.assets[i].cls == ORACLE_NFT && utxo.assets[i].amount == 1 {
      assert utxo.assets[i] == AssetAmount(ORACLE_NFT, 1);
    }
  }

  /** Each refusal names the first check that fails. */
  lemma ParseRefusals(datum: OracleDatum, utxo: OracleUTxO, now: int)
    ensures var r := ParseMainnetObservation(Some(datum), utxo, now);
      var v := datum.validity;
      var atOracle := utxo.address == MAINNET_ORACLE_ADDRESS;
      var holdsToken := atOracle && AssetAmount(ORACLE_NFT, 1) in utxo.assets;
      var signed := holdsToken && |datum.signature| == 64;
      var ofPolicy := signed && datum.oraclePolicy == ORACLE_NFT.policyId;
      var quoted := ofPolicy && datum.expressedIn == USD;
      var rated := quoted && datum.priceNumerator > 0 && datum.priceDenominator > 0;
      && (r == Err(ErrWrongAddress) <==> !atOracle)
      && (r == Err(ErrMissingNFT) <==> atOracle && !holdsToken)
      && (r == Err(ErrWrongPolicy) <==> signed && !ofPolicy)
      && (r == Err(ErrWrongQuote) <==> ofPolicy && !quoted)
      && (r == Err(ErrInvalidRate) <==> quoted && !rated)
      && (r == Err(ErrInvalidDatum) <==>
            || (holdsToken && !signed)
            || (rated && (v.from > v.until || (v.from == v.until && !(v.fromInclusive && v.untilInclusive)))))
      && (r == Err(ErrNotYetValid) ==> rated && now <= v.from)
      && (r == Err(ErrExpired) ==> rated && now >= v.until)
      && (r.Ok? ==> rated && v.Contains(now))
    ensures ParseMainnetObservation(None, utxo, now) == Err(ErrInvalidDatum)
  {
  }

  lemma LiveIsValid(o: Observation, now: int)
    requires Live(o)
    ensures o.ValidateAt(now) != Some(ErrInvalidDatum)
  {
    var t :| Usable(o, t);
  }

  /** The newest usable and the newest unusable of the observations seen so far. */
  ghost predicate BestSeen(seen: set<Observation>, now: int, current: Option<Observation>, invalid: Option<Observation>) {
    && (if current.Some? then NewestUsable(seen, now, current.value) else forall c :: c in seen ==> !Usable(c, now))
    && (if invalid.Some? then NewestOfUnusable(seen, now, invalid.value) else forall c :: c in seen ==> Usable(c, now))
  }

  ghost predicate NewestOfUnusable(seen: set<Observation>, now: int, o: Observation) {
    && o in seen && !Usable(o, now)
    && forall c :: c in seen && c != o && !Usable(c, now) ==> ObservationAfter(o, c)
  }

  lemma SeenOneMore(seen: set<Observation>, now: int, current: Option<Observation>, invalid: Option<Observation>,
                    candidate: Observation)
    requires BestSeen(seen, now, current, invalid)
    requires forall c :: c in seen ==> c.Ref() != candidate.Ref()
    ensures var seen' := seen + {candidate};
      if Usable(candidate, now) then
        BestSeen(seen', now,
                 if current.None? || ObservationAfter(candidate, current.value) then Some(candidate) else current, invalid)
      else
        BestSeen(seen', now, current,
                 if invalid.None? || ObservationAfter(candidate, invalid.value) then Some(candidate) else invalid)
  {
    var best := if Usable(candidate, now) then current else invalid;
    if best.Some? {
      AfterTotal(candidate, best.value);
      if ObservationAfter(candidate, best.value) {
        forall c | c in seen && ObservationAfter(best.value, c) ensures ObservationAfter(candidate, c) {
          AfterTransitive(candidate, best.value, c);
        }
      }
    }
  }

  /** No candidate lies at a later slot, nor later in its block, nor at a later output, nor after it by
      hash. */
  ghost predicate LastByPosition(o: Observation, candidates: iset<Observation>) {
    && o in candidates
    && forall c :: c in candidates ==>
         && c.slot <= o.slot
         && (c.slot == o.slot ==> c.transactionIndex <= o.transactionIndex)
         && (c.slot == o.slot && c.transactionIndex == o.transactionIndex ==> c.txIndex <= o.txIndex)
         && (c.slot == o.slot && c.transactionIndex == o.transactionIndex && c.txIndex == o.txIndex ==>
               !Text.LexLess(o.txHash, c.txHash))
  }

  /** The unspent observations whose interval holds the time. */
  ghost function UsableNow(book: Book, now: int): iset<Observation> {
    iset r | r in book && book[r].spentAt.None? && book[r].observation.validity.Contains(now) :: book[r].observation
  }

  ghost function UnspentNow(book: Book): iset<Observation> {
    iset r | r in book && book[r].spentAt.None? :: book[r].observation
  }

  /** The answer is the last usable unspent observation. When none is usable, the error says on which
      side of its interval the time lies for the last unspent one, or that there is none. */
  ghost predicate AnswersByPosition(book: Book, now: int, r: Result<Observation, DjedError>) {
    match r
    case Ok(o) => LastByPosition(o, UsableNow(book, now))
    case Err(e) =>
      && UsableNow(book, now) == iset{}
      && if UnspentNow(book) == iset{} then e == ErrNoCurrentObservation
         else exists o ::
           && LastByPosition(o, UnspentNow(book))
           && (if now <= o.validity.from then e == ErrNotYetValid else e == ErrExpired && now >= o.validity.until)
  }

  lemma UnspentMembers(book: Book, now: int)
    requires BookOk(book)
    ensures forall o :: o in UnspentNow(book) <==> o in Unspent(book)
    ensures forall o :: o in UsableNow(book, now) <==> o in Unspent(book) && Usable(o, now)
  {
    forall o ensures o in UsableNow(book, now) <==> o in Unspent(book) && Usable(o, now) {
      IntervalIsMembership(o.validity, now);
    }
  }

  lemma LaterByPosition(o: Observation, c: Observation)
    requires ObservationAfter(o, c) || o == c
    ensures c.slot <= o.slot
    ensures c.slot == o.slot ==> c.transactionIndex <= o.transactionIndex
    ensures c.slot == o.slot && c.transactionIndex == o.transactionIndex ==> c.txIndex <= o.txIndex
    ensures c.slot == o.slot && c.transactionIndex == o.transactionIndex && c.txIndex == o.txIndex ==>
              !Text.LexLess(o.txHash, c.txHash)
  {
    if Text.LexLess(o.txHash, c.txHash) {
      Text.LexAsymmetric(o.txHash, c.txHash);
    }
  }

  /** The specified answer in terms of slots, indexes and intervals. */
  lemma CurrentByPosition(book: Book, now: int, r: Result<Observation, DjedError>)
    requires BookOk(book) && (forall k :: k in book ==> Live(book[k].observation)) && IsCurrent(Unspent(book), now, r)
    ensures AnswersByPosition(book, now, r)
  {
    UnspentMembers(book, now);
    if r.Ok? {
      forall c | c in UsableNow(book, now) {
        LaterByPosition(r.value, c);
      }
    } else if Unspent(book) != {} {
      var o :| NewestUnusable(Unspent(book), now, o) && o.ValidateAt(now) == Some(r.error);
      LiveIsValid(o, now);
      forall c | c in UnspentNow(book) {
        LaterByPosition(o, c);
      }
      assert LastByPosition(o, UnspentNow(book));
    }
  }

  class Tracker {
    var observations: Book

    ghost predicate Valid()
      reads this
    {
      BookOk(observations) && forall r :: r in observations ==> Proper(observations[r].observation)
    }

    constructor ()
      ensures Valid() && observations == map[]
    {
      observations := map[];
    }

    method Apply(datum: Option<OracleDatum>, utxo: OracleUTxO, now: int) returns (r: Result<Observation, DjedError>)
      requires Valid()
      modifies this
      ensures Valid()
      ensures match ParseMainnetObservation(datum, utxo, now)
              case Err(e) => r == Err(e) && observations == old(observations)
              case Ok(o) =>
                if utxo.Ref() in old(observations) && old(observations)[utxo.Ref()].observation != o
                then r == Err(ErrConflictingObservation) && observations == old(observations)
                else r == Ok(o) && observations == Applied(old(observations), o)
    {
      r := ParseMainnetObservation(datum, utxo, now);
      if r.Err? {
        return;
      }
      ParsedIsProper(datum, utxo, now);
      var ref := utxo.Ref();
      if ref in observations {
        if observations[ref].observation != r.value {
          return Err(ErrConflictingObservation);
        }
        return;
      }
      observations := observations[ref := Tracked(r.value, None)];
    }

    method ConsumeAt(ref: OutputRef, slot: uint64)
      requires Valid()
      modifies this
      ensures Valid() && observations == Consumed(old(observations), ref, slot)
      ensures observations.Keys == old(observations).Keys
      ensures forall r :: r in observations ==>
        && observations[r].observation == old(observations)[r].observation
        && observations[r].spentAt == if r == ref then Some(slot) else old(observations)[r].spentAt
    {
      if ref !in observations {
        return;
      }
      observations := observations[ref := observations[ref].(spentAt := Some(slot))];
    }

    method Prune(beforeSlot: uint64) returns (removed: nat)
      requires Valid()
      modifies this
      ensures Valid() && observations == Pruned(old(observations), beforeSlot)
      ensures removed == |old(observations)| - |observations|
    {
      ghost var book := observations;
      removed := 0;
      var left := observations.Keys;
      while left != {}
        invariant left <= book.Keys && observations.Keys <= book.Keys
        invariant forall r :: r in book && r in left ==> r in observations
        invariant forall r :: r in book && r !in left ==> (r in observations <==> !Outdated(book[r], beforeSlot))
        invariant forall r :: r in observations ==> observations[r] == book[r]
        invariant removed == |book.Keys| - |observations.Keys|
        decreases left
      {
        var ref :| ref in left;
        var tracked := observations[ref];
        if tracked.spentAt.Some? && tracked.spentAt.value < beforeSlot {
          assert (observations - {ref}).Keys == observations.Keys - {ref};
          observations := observations - {ref};
          removed := removed + 1;
        }
        left := left - {ref};
      }
      assert observations == Pruned(book, beforeSlot);
      assert |book.Keys| == |book| && |observations.Keys| == |observations|;
    }

    method Rollback(slot: uint64)
      requires Valid()
      modifies this
      ensures Valid() && observations == RolledBack(old(observations), slot)
    {
      ghost var book := observations;
      var left := observations.Keys;
      while left != {}
        invariant left <= book.Keys && observations.Keys <= book.Keys
        invariant forall r :: r in left ==> r in observations && observations[r] == book[r]
        invariant forall r :: r in book && r !in left ==> (r in observations <==> book[r].observation.slot <= slot)
        invariant forall r :: r in observations && r !in left ==> observations[r] == Restored(book[r], slot)
        decreases left
      {
        var ref :| ref in left;
        var tracked := observations[ref];
        if tracked.observation.slot > slot {
          observations := observations - {ref};
        } else if tracked.spentAt.Some? && tracked.spentAt.value > slot {
          observations := observations[ref := tracked.(spentAt := None)];
        }
        left := left - {ref};
      }
      assert observations == RolledBack(book, slot);
    }

    /** The entries are visited in any order. */
    method Current(now: int) returns (r: Result<Observation, DjedError>)
      requires Valid()
      ensures IsCurrent(Unspent(observations), now, r)
      ensures r.Err? ==> r.error in {ErrNoCurrentObservation, ErrNotYetValid, ErrExpired}
      ensures AnswersByPosition(observations, now, r)
    {
      var current: Option<Observation> := None;
      var newestInvalid: Option<Observation> := None;
      var sawUnspent := false;
      ghost var seen: set<Observation> := {};
      var left := observations.Keys;
      while left != {}
        invariant left <= observations.Keys
        invariant forall r :: r in observations && r !in left && observations[r].spentAt.None? ==>
          observations[r].observation in seen
        invariant forall o :: o in seen ==>
          o.Ref() in observations && o.Ref() !in left && observations[o.Ref()] == Tracked(o, None)
        invariant sawUnspent <==> seen != {}
        invariant BestSeen(seen, now, current, newestInvalid)
        decreases left
      {
        var ref :| ref in left;
        left := left - {ref};
        var tracked := observations[ref];
        if tracked.spentAt.Some? {
          continue;
        }
        sawUnspent := true;
        var candidate := tracked.observation;
        SeenOneMore(seen, now, current, newestInvalid, candidate);
        seen := seen + {candidate};
        if !Usable(candidate, now) {
          if newestInvalid.None? || ObservationAfter(candidate, newestInvalid.value) {
            newestInvalid := Some(candidate);
          }
          continue;
        }
        if current.None? || ObservationAfter(candidate, current.value) {
          current := Some(candidate);
        }
      }
      assert seen == Unspent(observations);
      if current.Some? {
        r := Ok(current.value);
      } else if !sawUnspent {
        r := Err(ErrNoCurrentObservation);
      } else {
        assert NewestUnusable(seen, now, newestInvalid.value);
        LiveIsValid(newestInvalid.value, now);
        r := Err(newestInvalid.value.ValidateAt(now).value);
      }
      CurrentByPosition(observations, now, r);
    }
  }
}
