/** The integer arithmetic of a constant-product swap: x and y are the reserves of the asset paid
    in and the asset paid out, and feeNum over FEE_DENOM is the part of the input that counts. */
module SwapMath {
  import opened Words

  const FEE_DENOM := 1000

  function Denominator(x: nat, a: nat, feeNum: nat): nat { x * FEE_DENOM + a * feeNum }

  function Output(x: nat, y: nat, a: nat, feeNum: nat): (out: nat)
    requires Denominator(x, a, feeNum) > 0
    ensures out <= y
  {
    OutputFits(x, y, a, feeNum);
    (feeNum * (y * a)) / Denominator(x, a, feeNum)
  }

  lemma Reorder(feeNum: nat, y: nat, a: nat)
    ensures feeNum * (y * a) == y * (a * feeNum)
  {
  }

  lemma OutputFits(x: nat, y: nat, a: nat, feeNum: nat)
    requires Denominator(x, a, feeNum) > 0
    ensures (feeNum * (y * a)) / Denominator(x, a, feeNum) <= y
  {
    var part, d := a * feeNum, Denominator(x, a, feeNum);
    Reorder(feeNum, y, a);
    TimesMonotone(y, part, d);
    FloorAtMost(y * part, d, y);
  }

  lemma TimesMonotone(y: nat, a: nat, b: nat)
    requires a <= b
    ensures y * a <= y * b
  {
  }

  lemma CancelFactor(u: nat, a: int, b: int)
    requires u > 0 && u * a >= u * b
    ensures a >= b
  {
    assert u * (a - b) >= 0;
  }

  lemma FloorAtMost(n: nat, d: nat, q: nat)
    requires d > 0 && n <= q * d
    ensures n / d <= q
  {
    assert d * (n / d) <= n;
    CancelFactor(d, q, n / d);
  }

  lemma CancelStrict(u: nat, a: int, b: int)
    requires u * a < u * b
    ensures a < b
  {
    assert u * (b - a) > 0;
  }

  lemma FloorAtLeast(n: nat, d: nat, q: nat)
    requires d > 0 && q * d <= n
    ensures q <= n / d
  {
    var f := n / d;
    assert n < d * f + d;
    assert d * f + d == d * (f + 1);
    CancelStrict(d, q, f + 1);
  }

  /** What stays in the pool is at least its exact share: the floor favours the pool. */
  lemma Remaining(x: nat, y: nat, a: nat, feeNum: nat)
    requires Denominator(x, a, feeNum) > 0
    ensures (y - Output(x, y, a, feeNum)) * Denominator(x, a, feeNum) >= FEE_DENOM * x * y
  {
    var d, out := Denominator(x, a, feeNum), Output(x, y, a, feeNum);
    assert out * d <= feeNum * (y * a);
    calc {
      (y - out) * d;
      y * d - out * d;
    >= y * d - feeNum * (y * a);
      { assert y * d == y * (x * FEE_DENOM) + y * (a * feeNum); }
      y * (x * FEE_DENOM);
      FEE_DENOM * x * y;
    }
  }

  /** A pool with both reserves never pays out all of one. */
  lemma OutputBelowReserve(x: nat, y: nat, a: nat, feeNum: nat)
    requires x > 0 && y > 0
    ensures Denominator(x, a, feeNum) > 0 && Output(x, y, a, feeNum) < y
  {
    Remaining(x, y, a, feeNum);
    assert FEE_DENOM * x * y > 0;
  }

  /** The product of the reserves never decreases. */
  lemma ProductNeverDecreases(x: nat, y: nat, a: nat, feeNum: nat)
    requires x > 0 && feeNum <= FEE_DENOM
    ensures Denominator(x, a, feeNum) > 0 && (x + a) * (y - Output(x, y, a, feeNum)) >= x * y
  {
    var d, rest := Denominator(x, a, feeNum), y - Output(x, y, a, feeNum);
    Remaining(x, y, a, feeNum);
    assert a * feeNum <= a * FEE_DENOM;
    assert d <= FEE_DENOM * (x + a);
    assert rest * d <= rest * (FEE_DENOM * (x + a));
    assert rest * (FEE_DENOM * (x + a)) == FEE_DENOM * ((x + a) * rest);
    assert FEE_DENOM * x * y == FEE_DENOM * (x * y);
  }

  // ----- splitting -----

  function Sum(amounts: seq<nat>): nat { if amounts == [] then 0 else amounts[0] + Sum(amounts[1..]) }

  /** The total paid out when the amounts are swapped one after the other. */
  function SplitOutput(x: nat, y: nat, amounts: seq<nat>, feeNum: nat): (total: nat)
    requires x > 0
    ensures total <= y
    decreases |amounts|
  {
    if amounts == [] then 0
    else
      var out := Output(x, y, amounts[0], feeNum);
      out + SplitOutput(x + amounts[0], y - out, amounts[1..], feeNum)
  }

  /** From rest * (u + w) >= u * y1 and y1 * v >= c follows rest * (v + w) >= c when u >= v. */
  lemma ShareChain(rest: nat, y1: nat, u: nat, v: nat, w: nat, c: nat)
    requires u >= v && u > 0
    requires rest * (u + w) >= u * y1 && y1 * v >= c
    ensures rest * (v + w) >= c
  {
    assert u * (v + w) >= (u + w) * v by {
      TimesMonotone(w, v, u);
      assert u * (v + w) == u * v + w * u && (u + w) * v == u * v + w * v;
    }
    TimesMonotone(rest, (u + w) * v, u * (v + w));
    TimesMonotone(v, u * y1, rest * (u + w));
    TimesMonotone(u, c, y1 * v);
    Associate(rest, u + w, v);
    Associate(rest, v + w, u);
    Associate(u, y1, v);
    CancelFactor(u, rest * (v + w), c);
  }

  lemma Associate(a: nat, b: nat, c: nat)
    ensures a * (b * c) == (a * b) * c == c * (a * b) && a * (c * b) == (a * b) * c
  {
  }

  lemma JoinedInput(x: nat, a: nat, others: nat, feeNum: nat)
    ensures Denominator(x, a + others, feeNum) == Denominator(x, a, feeNum) + others * feeNum
    ensures Denominator(x + a, others, feeNum) == FEE_DENOM * (x + a) + others * feeNum
  {
    assert (a + others) * feeNum == a * feeNum + others * feeNum;
  }

  /** One swap of `a` followed by any that keep their share after it. */
  lemma SplitStep(x: nat, y: nat, a: nat, others: nat, y1: nat, rest: nat, feeNum: nat)
    requires x > 0 && feeNum <= FEE_DENOM
    requires y1 * Denominator(x, a, feeNum) >= FEE_DENOM * x * y
    requires rest * Denominator(x + a, others, feeNum) >= FEE_DENOM * (x + a) * y1
    ensures rest * Denominator(x, a + others, feeNum) >= FEE_DENOM * x * y
  {
    var u, v, w := FEE_DENOM * (x + a), Denominator(x, a, feeNum), others * feeNum;
    TimesMonotone(a, feeNum, FEE_DENOM);
    JoinedInput(x, a, others, feeNum);
    ShareChain(rest, y1, u, v, w, FEE_DENOM * x * y);
  }

  lemma {:induction false} SplitRemaining(x: nat, y: nat, amounts: seq<nat>, feeNum: nat)
    requires x > 0 && feeNum <= FEE_DENOM
    ensures (y - SplitOutput(x, y, amounts, feeNum)) * Denominator(x, Sum(amounts), feeNum) >= FEE_DENOM * x * y
    decreases |amounts|
  {
    if amounts == [] {
      Associate(y, x, FEE_DENOM);
      assert Denominator(x, 0, feeNum) == x * FEE_DENOM;
      assert y * (x * FEE_DENOM) == FEE_DENOM * x * y;
    } else {
      var a := amounts[0];
      var y1 := y - Output(x, y, a, feeNum);
      Remaining(x, y, a, feeNum);
      SplitRemaining(x + a, y1, amounts[1..], feeNum);
      SplitStep(x, y, a, Sum(amounts[1..]), y1, y - SplitOutput(x, y, amounts, feeNum), feeNum);
    }
  }

  /** Splitting a swap never pays more than swapping the total at once. */
  lemma SplittingNeverPaysMore(x: nat, y: nat, amounts: seq<nat>, feeNum: nat)
    requires x > 0 && feeNum <= FEE_DENOM
    ensures SplitOutput(x, y, amounts, feeNum) <= Output(x, y, Sum(amounts), feeNum)
  {
    SplitRemaining(x, y, amounts, feeNum);
    TotalAtMostOutput(x, y, Sum(amounts), feeNum, SplitOutput(x, y, amounts, feeNum));
  }

  /** A payment that leaves the pool its exact share is at most the floored output. */
  lemma TotalAtMostOutput(x: nat, y: nat, a: nat, feeNum: nat, total: nat)
    requires Denominator(x, a, feeNum) > 0 && total <= y
    requires (y - total) * Denominator(x, a, feeNum) >= FEE_DENOM * x * y
    ensures total <= Output(x, y, a, feeNum)
  {
    var kept, paid := FEE_DENOM * x * y, feeNum * (y * a);
    Shares(x, y, a, feeNum);
    FloorOfShare(y, total, Denominator(x, a, feeNum), kept, paid);
  }

  lemma FloorOfShare(y: nat, total: nat, d: nat, kept: nat, paid: nat)
    requires d > 0 && total <= y && (y - total) * d >= kept && y * d == kept + paid
    ensures total <= paid / d
  {
    assert (y - total) * d == y * d - total * d;
    FloorAtLeast(paid, d, total);
  }

  /** The exact shares of pool and trader add up to the reserve. */
  lemma Shares(x: nat, y: nat, a: nat, feeNum: nat)
    ensures y * Denominator(x, a, feeNum) == FEE_DENOM * x * y + feeNum * (y * a)
  {
    assert y * (x * FEE_DENOM + a * feeNum) == y * (x * FEE_DENOM) + y * (a * feeNum);
    Reorder(feeNum, y, a);
  }

  /** A reserve of the asset paid in that leaves room for two units, and one of the asset paid out. */
  function ReserveIn(f: uint64): uint64
    requires f > FEE_DENOM
  {
    if f <= MAX_UINT64 - 2 then f else f - 2
  }

  const RESERVE_OUT: uint64 := 501501 * 2007

  lemma FloorIs(n: nat, d: nat, q: nat)
    requires d > 0 && q * d <= n < (q + 1) * d
    ensures n / d == q
  {
    FloorAtLeast(n, d, q);
    assert d * (n / d) <= n;
    CancelStrict(d, n / d, q + 1);
  }

  /** The first unit takes one part in 1001 of the reserve, rounded down. */
  lemma FirstUnit(f: uint64, x: uint64)
    requires f > FEE_DENOM && x == ReserveIn(f)
    ensures Output(x, RESERVE_OUT, 1, f) == 501 * 2007
  {
    FloorIs(f * (RESERVE_OUT * 1), Denominator(x, 1, f), 501 * 2007);
  }

  lemma SecondUnit(f: uint64, x: uint64)
    requires f > FEE_DENOM && x == ReserveIn(f)
    ensures Output(x + 1, RESERVE_OUT - 501 * 2007, 1, f) >= 500 * 2007 + 1
  {
    FloorAtLeast(f * ((RESERVE_OUT - 501 * 2007) * 1), Denominator(x + 1, 1, f), 500 * 2007 + 1);
  }

  lemma BothUnits(f: uint64, x: uint64)
    requires f > FEE_DENOM && x == ReserveIn(f)
    ensures Output(x, RESERVE_OUT, 2, f) == 1001 * 2007
  {
    FloorIs(f * (RESERVE_OUT * 2), Denominator(x, 2, f), 1001 * 2007);
  }

  /** With any fee multiplier above one, some split pays more. */
  lemma SplittingCanPayMoreAboveOne(feeNum: uint64)
    requires feeNum > FEE_DENOM
    ensures var x := ReserveIn(feeNum);
      x + Sum([1, 1]) <= MAX_UINT64
      && SplitOutput(x, RESERVE_OUT, [1, 1], feeNum) > Output(x, RESERVE_OUT, Sum([1, 1]), feeNum)
  {
    assert [1, 1][1..] == [1] && [1][1..] == [];
    assert Sum([1, 1]) == 2;
    var x := ReserveIn(feeNum);
    FirstUnit(feeNum, x);
    SecondUnit(feeNum, x);
    BothUnits(feeNum, x);
  }

  ghost predicate SplitsPayNoMore(x: uint64, y: uint64, feeNum: uint64)
    requires x > 0
  {
    forall amounts :: x + Sum(amounts) <= MAX_UINT64 ==>
      SplitOutput(x, y, amounts, feeNum) <= Output(x, y, Sum(amounts), feeNum)
  }

  /** Splitting never pays more, for any reserves and any amounts that fit them, exactly with a
      multiplier of at most one. */
  lemma SplittingNeverPaysMoreIff(feeNum: uint64)
    ensures feeNum <= FEE_DENOM <==> forall x: uint64, y: uint64 :: x > 0 ==> SplitsPayNoMore(x, y, feeNum)
  {
    if feeNum <= FEE_DENOM {
      forall x: uint64, y: uint64 | x > 0 ensures SplitsPayNoMore(x, y, feeNum) {
        forall amounts { SplittingNeverPaysMore(x, y, amounts, feeNum); }
      }
    } else {
      SplittingCanPayMoreAboveOne(feeNum);
      assert !SplitsPayNoMore(ReserveIn(feeNum), RESERVE_OUT, feeNum);
    }
  }
}
