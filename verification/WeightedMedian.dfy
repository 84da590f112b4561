/** The liquidity-weighted median of qualified pool prices and the checks around it
    (price/ada_usd.go). */
module WeightedMedian {
  import opened Words

  /** A qualified observation; a missing price stands for the source's nil rational. */
  datatype PoolObservation = PoolObservation(
    poolId: string, protocol: string, stablecoin: string, stableMicros: uint64, price: Option<real>)

  datatype PriceError =
    | InvalidConfig
    | InvalidPrice
    | LiquidityOverflow
    | ErrInsufficientObservations
    | ErrInsufficientDiversity
    | ErrConcentratedLiquidity
    | ErrDivergentPrices

  predicate Priced(s: seq<PoolObservation>) {
    forall i :: 0 <= i < |s| ==> s[i].price.Some? && s[i].price.value > 0.0
  }

  // ----- weights, independent of order -----

  function Total(s: seq<PoolObservation>): nat {
    if s == [] then 0 else Total(s[..|s| - 1]) + s[|s| - 1].stableMicros
  }

  function WeightIf(o: PoolObservation, counts: bool): nat { if counts then o.stableMicros else 0 }

  function Below(s: seq<PoolObservation>, p: real): nat
    requires Priced(s)
  {
    if s == [] then 0 else Below(s[..|s| - 1], p) + WeightIf(s[|s| - 1], s[|s| - 1].price.value < p)
  }

  function Above(s: seq<PoolObservation>, p: real): nat
    requires Priced(s)
  {
    if s == [] then 0 else Above(s[..|s| - 1], p) + WeightIf(s[|s| - 1], s[|s| - 1].price.value > p)
  }

  /** The weight priced in [a, b]. */
  function Within(s: seq<PoolObservation>, a: real, b: real): nat
    requires Priced(s)
  {
    if s == [] then 0 else Within(s[..|s| - 1], a, b) + WeightIf(s[|s| - 1], a <= s[|s| - 1].price.value <= b)
  }

  /** Less than half the weight is below, and at least half is at or below. */
  predicate IsLowerMedian(s: seq<PoolObservation>, p: real)
    requires Priced(s)
  {
    2 * Below(s, p) < Total(s) && 2 * Above(s, p) <= Total(s)
  }

  /** Less than half the weight is above, and at least half is at or above. */
  predicate IsUpperMedian(s: seq<PoolObservation>, p: real)
    requires Priced(s)
  {
    2 * Above(s, p) < Total(s) && 2 * Below(s, p) <= Total(s)
  }

  /** The average of the lower and the upper weighted median. */
  ghost predicate IsMedian(s: seq<PoolObservation>, m: real)
    requires Priced(s)
  {
    exists lower, upper :: IsLowerMedian(s, lower) && IsUpperMedian(s, upper) && m == (lower + upper) / 2.0
  }

  lemma PricedPrefix(s: seq<PoolObservation>, n: nat)
    requires Priced(s) && n <= |s|
    ensures Priced(s[..n]) && Priced(s[n..])
  {
  }

  lemma {:induction false} WeightsSplit(a: seq<PoolObservation>, b: seq<PoolObservation>, p: real)
    requires Priced(a) && Priced(b)
    ensures Priced(a + b)
    ensures Total(a + b) == Total(a) + Total(b)
    ensures Below(a + b, p) == Below(a, p) + Below(b, p)
    ensures Above(a + b, p) == Above(a, p) + Above(b, p)
  {
    if b == [] {
      assert a + b == a;
    } else {
      assert (a + b)[..|a + b| - 1] == a + b[..|b| - 1];
      WeightsSplit(a, b[..|b| - 1], p);
    }
  }

  /** Weight below and above a price, and at two prices in order. */
  lemma {:induction false} WeightOrder(s: seq<PoolObservation>, p: real, q: real)
    requires Priced(s)
    ensures Below(s, p) + Above(s, p) <= Total(s)
    ensures p < q ==> Total(s) - Above(s, p) <= Below(s, q)
  {
    if s != [] {
      WeightOrder(s[..|s| - 1], p, q);
    }
  }

  lemma {:induction false} WithinOrder(s: seq<PoolObservation>, a: real, b: real, p: real)
    requires Priced(s)
    ensures p < a ==> Within(s, a, b) <= Above(s, p)
    ensures p > b ==> Within(s, a, b) <= Below(s, p)
  {
    if s != [] {
      WithinOrder(s[..|s| - 1], a, b, p);
    }
  }

  /** There is only one lower and only one upper median, so only one median. */
  lemma MedianIsUnique(s: seq<PoolObservation>, m: real, m': real)
    requires Priced(s) && IsMedian(s, m) && IsMedian(s, m')
    ensures m == m'
  {
    var l, u :| IsLowerMedian(s, l) && IsUpperMedian(s, u) && m == (l + u) / 2.0;
    var l', u' :| IsLowerMedian(s, l') && IsUpperMedian(s, u') && m' == (l' + u') / 2.0;
    WeightOrder(s, l, l');
    WeightOrder(s, l', l);
    WeightOrder(s, u, u');
    WeightOrder(s, u', u);
  }

  /** The median lies in every interval that holds more than half the weight. */
  lemma MedianWithinMajority(s: seq<PoolObservation>, m: real, a: real, b: real)
    requires Priced(s) && IsMedian(s, m) && 2 * Within(s, a, b) > Total(s)
    ensures a <= m <= b
  {
    var l, u :| IsLowerMedian(s, l) && IsUpperMedian(s, u) && m == (l + u) / 2.0;
    WithinOrder(s, a, b, l);
    WithinOrder(s, a, b, u);
  }

  // ----- symmetry -----

  /** The prices mirrored at half of c. */
  function Mirrored(s: seq<PoolObservation>, c: real): seq<PoolObservation>
    requires Priced(s)
  {
    seq(|s|, i requires 0 <= i < |s| => s[i].(price := Some(c - s[i].price.value)))
  }

  lemma MirroredPrefix(s: seq<PoolObservation>, c: real)
    requires Priced(s) && s != []
    ensures Mirrored(s, c)[..|s| - 1] == Mirrored(s[..|s| - 1], c)
  {
  }

  lemma {:induction false} MirroredWeights(s: seq<PoolObservation>, c: real, p: real)
    requires Priced(s) && Priced(Mirrored(s, c))
    ensures Total(Mirrored(s, c)) == Total(s)
    ensures Below(Mirrored(s, c), c - p) == Above(s, p) && Above(Mirrored(s, c), c - p) == Below(s, p)
  {
    if s != [] {
      MirroredPrefix(s, c);
      PricedPrefix(Mirrored(s, c), |s| - 1);
      MirroredWeights(s[..|s| - 1], c, p);
    }
  }

  /** Mirroring the prices mirrors the median: it favours neither the low nor the high prices. */
  lemma MedianMirrors(s: seq<PoolObservation>, c: real, m: real)
    requires Priced(s) && Priced(Mirrored(s, c)) && IsMedian(s, m)
    ensures IsMedian(Mirrored(s, c), c - m)
  {
    var l, u :| IsLowerMedian(s, l) && IsUpperMedian(s, u) && m == (l + u) / 2.0;
    MirroredWeights(s, c, l);
    MirroredWeights(s, c, u);
    assert IsLowerMedian(Mirrored(s, c), c - u) && IsUpperMedian(Mirrored(s, c), c - l);
    assert c - m == ((c - u) + (c - l)) / 2.0;
  }

  // ----- order independence -----

  function Without(s: seq<PoolObservation>, i: nat): seq<PoolObservation>
    requires i < |s|
  {
    s[..i] + s[i + 1..]
  }

  lemma WeightsNext(s: seq<PoolObservation>, i: nat, p: real)
    requires Priced(s) && i < |s|
    ensures Priced(s[..i]) && Priced(s[..i + 1])
    ensures Total(s[..i + 1]) == Total(s[..i]) + s[i].stableMicros
    ensures Below(s[..i + 1], p) == Below(s[..i], p) + WeightIf(s[i], s[i].price.value < p)
    ensures Above(s[..i + 1], p) == Above(s[..i], p) + WeightIf(s[i], s[i].price.value > p)
  {
    assert s[..i + 1][..i] == s[..i];
  }

  /** Taking one observation out takes out exactly its weight. */
  lemma WeightsWithout(s: seq<PoolObservation>, i: nat, p: real)
    requires Priced(s) && i < |s|
    ensures Priced(Without(s, i))
    ensures Total(s) == Total(Without(s, i)) + s[i].stableMicros
    ensures Below(s, p) == Below(Without(s, i), p) + WeightIf(s[i], s[i].price.value < p)
    ensures Above(s, p) == Above(Without(s, i), p) + WeightIf(s[i], s[i].price.value > p)
  {
    PricedPrefix(s, i + 1);
    WeightsNext(s, i, p);
    WeightsSplit(s[..i], s[i + 1..], p);
    WeightsSplit(s[..i + 1], s[i + 1..], p);
    assert s == s[..i + 1] + s[i + 1..];
  }

  lemma ContentsWithout(s: seq<PoolObservation>, i: nat)
    requires i < |s|
    ensures multiset(s) == multiset(Without(s, i)) + multiset{s[i]}
  {
    assert s == s[..i] + [s[i]] + s[i + 1..];
  }

  lemma Pulled(a: seq<PoolObservation>, b: seq<PoolObservation>) returns (i: nat)
    requires a != [] && multiset(a) == multiset(b)
    ensures i < |b| && b[i] == a[|a| - 1] && multiset(a[..|a| - 1]) == multiset(Without(b, i))
  {
    assert a[|a| - 1] in multiset(b);
    i :| 0 <= i < |b| && b[i] == a[|a| - 1];
    ContentsWithout(a, |a| - 1);
    ContentsWithout(b, i);
    assert Without(a, |a| - 1) == a[..|a| - 1];
    Cancel(multiset(a[..|a| - 1]), multiset(Without(b, i)), multiset{b[i]});
  }

  lemma Cancel(a: multiset<PoolObservation>, b: multiset<PoolObservation>, c: multiset<PoolObservation>)
    requires a + c == b + c
    ensures a == b
  {
    assert a == (a + c) - c && b == (b + c) - c;
  }

  lemma {:induction false} WeightsOfPermutation(a: seq<PoolObservation>, b: seq<PoolObservation>, p: real)
    requires Priced(a) && multiset(a) == multiset(b)
    ensures Priced(b) && Total(a) == Total(b) && Below(a, p) == Below(b, p) && Above(a, p) == Above(b, p)
  {
    PricedPermutation(a, b);
    if a == [] {
      assert |multiset(b)| == 0;
    } else {
      var i := Pulled(a, b);
      WeightsWithout(b, i, p);
      WeightsOfPermutation(a[..|a| - 1], Without(b, i), p);
    }
  }

  lemma PricedPermutation(a: seq<PoolObservation>, b: seq<PoolObservation>)
    requires Priced(a) && multiset(a) == multiset(b)
    ensures Priced(b)
  {
    forall i | 0 <= i < |b| ensures b[i].price.Some? && b[i].price.value > 0.0 {
      assert b[i] in multiset(a);
    }
  }

  /** The median depends on the observations, not on their order. */
  lemma MedianOrderIndependent(a: seq<PoolObservation>, b: seq<PoolObservation>, m: real)
    requires Priced(a) && multiset(a) == multiset(b) && IsMedian(a, m)
    ensures Priced(b) && IsMedian(b, m)
  {
    var l, u :| IsLowerMedian(a, l) && IsUpperMedian(a, u) && m == (l + u) / 2.0;
    WeightsOfPermutation(a, b, l);
    WeightsOfPermutation(a, b, u);
    assert IsLowerMedian(b, l) && IsUpperMedian(b, u);
  }

  // ----- sorting -----

  predicate PriceSorted(s: seq<PoolObservation>)
    requires Priced(s)
  {
    forall i, j :: 0 <= i < j < |s| ==> s[i].price.value <= s[j].price.value
  }

  /** The stable sort by price. */
  function Inserted(s: seq<PoolObservation>, o: PoolObservation): (r: seq<PoolObservation>)
    requires Priced(s) && Priced([o])
    ensures Priced(r) && multiset(r) == multiset(s) + multiset{o}
  {
    assert o == [o][0];
    if s == [] || s[|s| - 1].price.value <= o.price.value then s + [o]
    else
      assert s == s[..|s| - 1] + [s[|s| - 1]];
      Inserted(s[..|s| - 1], o) + [s[|s| - 1]]
  }

  function SortedByPrice(s: seq<PoolObservation>): (r: seq<PoolObservation>)
    requires Priced(s)
    ensures Priced(r) && multiset(r) == multiset(s)
  {
    if s == [] then []
    else
      assert s == s[..|s| - 1] + [s[|s| - 1]];
      Inserted(SortedByPrice(s[..|s| - 1]), s[|s| - 1])
  }

  lemma AppendedSorted(s: seq<PoolObservation>, o: PoolObservation)
    requires Priced(s) && Priced([o]) && PriceSorted(s)
    requires s != [] ==> s[|s| - 1].price.value <= [o][0].price.value
    ensures Priced(s + [o]) && PriceSorted(s + [o])
  {
  }

  lemma LastOfInserted(s: seq<PoolObservation>, o: PoolObservation)
    requires Priced(s) && Priced([o])
    ensures |Inserted(s, o)| == |s| + 1
    ensures Inserted(s, o)[|s|] == o || (s != [] && Inserted(s, o)[|s|] == s[|s| - 1])
  {
    assert |Inserted(s, o)| == |multiset(Inserted(s, o))| == |s| + 1;
  }

  lemma {:induction false} InsertedSorted(s: seq<PoolObservation>, o: PoolObservation)
    requires Priced(s) && Priced([o]) && PriceSorted(s)
    ensures PriceSorted(Inserted(s, o))
  {
    assert o == [o][0];
    if s == [] || s[|s| - 1].price.value <= o.price.value {
      AppendedSorted(s, o);
    } else {
      var rest, last := s[..|s| - 1], s[|s| - 1];
      PricedPrefix(s, |s| - 1);
      InsertedSorted(rest, o);
      LastOfInserted(rest, o);
      assert [last][0] == last;
      AppendedSorted(Inserted(rest, o), last);
    }
  }

  lemma {:induction false} SortedIsSorted(s: seq<PoolObservation>)
    requires Priced(s)
    ensures PriceSorted(SortedByPrice(s))
  {
    if s != [] {
      SortedIsSorted(s[..|s| - 1]);
      assert [s[|s| - 1]] == s[|s| - 1..];
      InsertedSorted(SortedByPrice(s[..|s| - 1]), s[|s| - 1]);
    }
  }

  // ----- the scan -----

  predicate AtMost(s: seq<PoolObservation>, p: real)
    requires Priced(s)
  {
    forall i :: 0 <= i < |s| ==> s[i].price.value <= p
  }

  predicate AtLeast(s: seq<PoolObservation>, p: real)
    requires Priced(s)
  {
    forall i :: 0 <= i < |s| ==> s[i].price.value >= p
  }

  lemma PriceOrderAround(s: seq<PoolObservation>, i: nat)
    requires Priced(s) && PriceSorted(s) && i < |s|
    ensures Priced(s[..i + 1]) && Priced(s[i..])
    ensures AtMost(s[..i + 1], s[i].price.value) && AtLeast(s[i..], s[i].price.value)
  {
  }

  /** In price order, no more weight than the prefix is strictly below. */
  lemma ScanBelow(s: seq<PoolObservation>, i: nat, p: real)
    requires Priced(s) && PriceSorted(s) && i < |s| && p == s[i].price.value
    ensures Below(s, p) <= Total(s[..i])
  {
    var a, b := s[..i], s[i..];
    PriceOrderAround(s, i);
    NoneBelow(b, p);
    PricedPrefix(s, i);
    WeightsSplit(a, b, p);
    assert s == a + b;
    WeightOrder(a, p, p);
  }

  /** In price order, no more weight than the suffix is strictly above. */
  lemma ScanAbove(s: seq<PoolObservation>, i: nat, p: real)
    requires Priced(s) && PriceSorted(s) && i < |s| && p == s[i].price.value
    ensures Above(s, p) <= Total(s[i + 1..])
  {
    var a, b := s[..i + 1], s[i + 1..];
    PriceOrderAround(s, i);
    NoneAbove(a, p);
    PricedPrefix(s, i + 1);
    WeightsSplit(a, b, p);
    assert s == a + b;
    WeightOrder(b, p, p);
  }

  lemma ScanBounds(s: seq<PoolObservation>, i: nat)
    requires Priced(s) && PriceSorted(s) && i < |s|
    ensures Total(s) == Total(s[..i]) + s[i].stableMicros + Total(s[i + 1..])
    ensures Below(s, s[i].price.value) <= Total(s[..i])
    ensures Above(s, s[i].price.value) <= Total(s[i + 1..])
  {
    ScanBelow(s, i, s[i].price.value);
    ScanAbove(s, i, s[i].price.value);
    TotalNext(s, i);
    assert s == s[..i + 1] + s[i + 1..];
    TotalSplit(s[..i + 1], s[i + 1..]);
  }

  lemma {:induction false} NoneBelow(s: seq<PoolObservation>, p: real)
    requires Priced(s) && AtLeast(s, p)
    ensures Below(s, p) == 0
  {
    if s != [] {
      NoneBelow(s[..|s| - 1], p);
    }
  }

  lemma {:induction false} NoneAbove(s: seq<PoolObservation>, p: real)
    requires Priced(s) && AtMost(s, p)
    ensures Above(s, p) == 0
  {
    if s != [] {
      NoneAbove(s[..|s| - 1], p);
    }
  }

  lemma TotalNext(s: seq<PoolObservation>, i: nat)
    requires i < |s|
    ensures Total(s[..i + 1]) == Total(s[..i]) + s[i].stableMicros
  {
    assert s[..i + 1][..i] == s[..i];
  }

  lemma {:induction false} TotalSplit(a: seq<PoolObservation>, b: seq<PoolObservation>)
    ensures Total(a + b) == Total(a) + Total(b)
  {
    if b == [] {
      assert a + b == a;
    } else {
      assert (a + b)[..|a + b| - 1] == a + b[..|b| - 1];
      TotalSplit(a, b[..|b| - 1]);
    }
  }

  /** The guarded sum of the liquidity. */
  method TotalWeight(s: seq<PoolObservation>) returns (r: Option<uint64>)
    ensures r == if Total(s) <= MAX_UINT64 then Some(Total(s)) else None
  {
    var total: uint64 := 0;
    var i := 0;
    while i < |s|
      invariant i <= |s| && total == Total(s[..i])
    {
      TotalNext(s, i);
      if MAX_UINT64 - total < s[i].stableMicros {
        assert s == s[..i + 1] + s[i + 1..];
        TotalSplit(s[..i + 1], s[i + 1..]);
        return None;
      }
      total := total + s[i].stableMicros;
      i := i + 1;
    }
    assert s[..i] == s;
    return Some(total);
  }

  method AllPriced(s: seq<PoolObservation>) returns (ok: bool)
    ensures ok <==> Priced(s)
  {
    var i := 0;
    while i < |s|
      invariant i <= |s| && Priced(s[..i])
    {
      if s[i].price.None? || s[i].price.value <= 0.0 {
        return false;
      }
      i := i + 1;
    }
    assert s[..i] == s;
    return true;
  }

  /** liquidityWeightedMedian: it finds the median exactly when every price is positive and the
      total liquidity is positive and fits a word; there is no other way for it to fail. */
  method LiquidityWeightedMedian(observations: seq<PoolObservation>) returns (r: Result<(real, uint64), PriceError>)
    ensures r == Err(InvalidPrice) <==> !Priced(observations)
    ensures r == Err(LiquidityOverflow) <==> Priced(observations) && Total(observations) > MAX_UINT64
    ensures r == Err(ErrInsufficientObservations) <==> Priced(observations) && Total(observations) == 0
    ensures r.Err? ==> r.error in {InvalidPrice, LiquidityOverflow, ErrInsufficientObservations}
    ensures r.Ok? ==> IsMedian(observations, r.value.0) && r.value.1 == Total(observations) > 0
  {
    var priced := AllPriced(observations);
    if !priced {
      return Err(InvalidPrice);
    }
    var ordered := SortedByPrice(observations);
    SortedIsSorted(observations);
    WeightsOfPermutation(observations, ordered, 0.0);
    var totalWeight := TotalWeight(ordered);
    if totalWeight.None? {
      return Err(LiquidityOverflow);
    }
    if totalWeight.value == 0 {
      return Err(ErrInsufficientObservations);
    }
    var median := ScanMedian(ordered, totalWeight.value);
    MedianOrderIndependent(ordered, observations, median);
    return Ok((median, totalWeight.value));
  }

  lemma MedianAt(s: seq<PoolObservation>, lower: real, upper: real)
    requires Priced(s) && IsLowerMedian(s, lower) && IsUpperMedian(s, upper)
    ensures IsMedian(s, (lower + upper) / 2.0)
  {
  }

  /** The cumulative scan always finds a median of a positive total. */
  method ScanMedian(ordered: seq<PoolObservation>, totalWeight: uint64) returns (median: real)
    requires Priced(ordered) && PriceSorted(ordered) && totalWeight == Total(ordered) > 0
    ensures IsMedian(ordered, median)
  {
    assert ordered[..|ordered|] == ordered;
    var cumulative: uint64 := 0;
    var i := 0;
    while i < |ordered|
      invariant i <= |ordered|
      invariant cumulative == Total(ordered[..i])
      invariant 2 * cumulative < totalWeight
    {
      TotalNext(ordered, i);
      ScanBounds(ordered, i);
      if ordered[i].stableMicros == 0 {
        i := i + 1;
        continue;
      }
      cumulative := cumulative + ordered[i].stableMicros;
      var remaining := totalWeight - cumulative;
      var price := ordered[i].price.value;
      if cumulative > remaining {
        MedianAt(ordered, price, price);
        return price;
      }
      if cumulative == remaining {
        var next := NextWeighted(ordered, i + 1);
        MedianAt(ordered, price, ordered[next].price.value);
        return (price + ordered[next].price.value) / 2.0;
      }
      i := i + 1;
    }
    assert false;
  }

  /** The first observation with weight from a position on, when half the weight is still ahead. */
  method NextWeighted(ordered: seq<PoolObservation>, start: nat) returns (next: nat)
    requires Priced(ordered) && PriceSorted(ordered) && start <= |ordered|
    requires 2 * Total(ordered[..start]) == Total(ordered) > 0
    ensures next < |ordered| && IsUpperMedian(ordered, ordered[next].price.value)
  {
    assert ordered[..|ordered|] == ordered;
    next := start;
    while ordered[next].stableMicros == 0
      invariant start <= next < |ordered| && Total(ordered[..next]) == Total(ordered[..start])
      decreases |ordered| - next
    {
      TotalNext(ordered, next);
      next := next + 1;
    }
    ScanBounds(ordered, next);
  }
}
