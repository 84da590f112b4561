/** Lists of swaps: the part that belongs to one pool, the part inside a window, their sums, and
    the order sortSwapTransitions puts them in. */
module ActivityLists {
  import opened Words
  import opened Text
  import opened Dex
  import opened ActivitySpec

  function OfPool(s: seq<SwapTransition>, key: string): seq<SwapTransition> {
    if s == [] then []
    else OfPool(s[..|s| - 1], key) + if s[|s| - 1].Key() == key then [s[|s| - 1]] else []
  }

  // ----- splitting -----

  lemma {:induction false} OfPoolSplit(a: seq<SwapTransition>, b: seq<SwapTransition>, key: string)
    ensures OfPool(a + b, key) == OfPool(a, key) + OfPool(b, key)
  {
    if b == [] {
      assert a + b == a;
    } else {
      var b' := b[..|b| - 1];
      assert (a + b)[..|a + b| - 1] == a + b';
      OfPoolSplit(a, b', key);
    }
  }

  lemma {:induction false} OfPoolMembers(s: seq<SwapTransition>, key: string)
    ensures forall e :: e in OfPool(s, key) <==> e in s && e.Key() == key
  {
    if s != [] {
      var last := s[|s| - 1];
      OfPoolMembers(s[..|s| - 1], key);
      assert s == s[..|s| - 1] + [last];
    }
  }

  lemma {:induction false} OfPoolSorted(s: seq<SwapTransition>, key: string)
    requires SlotSorted(s)
    ensures SlotSorted(OfPool(s, key))
  {
    if s != [] {
      var rest := s[..|s| - 1];
      OfPoolSorted(rest, key);
      OfPoolMembers(rest, key);
      var kept := OfPool(rest, key);
      forall i | 0 <= i < |kept| ensures kept[i].slot <= s[|s| - 1].slot {
        assert kept[i] in rest;
      }
    }
  }

  lemma {:induction false} FromCutoffSplit(a: seq<SwapTransition>, b: seq<SwapTransition>, cutoff: int)
    requires forall e :: e in a ==> e.slot < cutoff
    requires forall e :: e in b ==> e.slot >= cutoff
    ensures FromCutoff(a + b, cutoff) == b
  {
    if a == [] {
      assert a + b == b;
    } else {
      assert (a + b)[1..] == a[1..] + b;
      assert (a + b)[0] == a[0] && a[0] in a;
      FromCutoffSplit(a[1..], b, cutoff);
    }
  }

  lemma {:induction false} BeforeSlotSplit(a: seq<SwapTransition>, b: seq<SwapTransition>, slot: int)
    requires forall e :: e in a ==> e.slot < slot
    requires forall e :: e in b ==> e.slot >= slot
    ensures BeforeSlot(a + b, slot) == a
  {
    if b == [] {
      assert a + b == a;
      assert a != [] ==> a[|a| - 1] in a;
    } else {
      assert (a + b)[..|a + b| - 1] == a + b[..|b| - 1];
      assert (a + b)[|a + b| - 1] == b[|b| - 1] && b[|b| - 1] in b;
      BeforeSlotSplit(a, b[..|b| - 1], slot);
    }
  }

  lemma {:induction false} SinceSplit(a: seq<SwapTransition>, b: seq<SwapTransition>, cutoff: int)
    ensures Since(a + b, cutoff) == Since(a, cutoff) + Since(b, cutoff)
  {
    if b == [] {
      assert a + b == a;
    } else {
      assert (a + b)[..|a + b| - 1] == a + b[..|b| - 1];
      SinceSplit(a, b[..|b| - 1], cutoff);
    }
  }

  lemma {:induction false} SinceMembers(s: seq<SwapTransition>, cutoff: int)
    ensures forall e :: e in Since(s, cutoff) <==> e in s && e.slot >= cutoff
  {
    if s != [] {
      SinceMembers(s[..|s| - 1], cutoff);
      assert s == s[..|s| - 1] + [s[|s| - 1]];
    }
  }

  lemma {:induction false} SinceDropsAll(s: seq<SwapTransition>, cutoff: int)
    requires forall e :: e in s ==> e.slot < cutoff
    ensures Since(s, cutoff) == []
  {
    if s != [] {
      assert s == s[..|s| - 1] + [s[|s| - 1]];
      SinceDropsAll(s[..|s| - 1], cutoff);
    }
  }

  lemma {:induction false} SinceKeepsAll(s: seq<SwapTransition>, cutoff: int)
    requires forall e :: e in s ==> e.slot >= cutoff
    ensures Since(s, cutoff) == s
  {
    if s != [] {
      assert s == s[..|s| - 1] + [s[|s| - 1]];
      SinceKeepsAll(s[..|s| - 1], cutoff);
    }
  }

  /** Where a slot-sorted list first reaches a slot. */
  lemma SplitAtSlot(s: seq<SwapTransition>, slot: int) returns (n: nat)
    requires SlotSorted(s)
    ensures n <= |s|
    ensures forall i :: 0 <= i < n ==> s[i].slot < slot
    ensures forall i :: n <= i < |s| ==> s[i].slot >= slot
  {
    n := 0;
    while n < |s| && s[n].slot < slot
      invariant n <= |s|
      invariant forall i :: 0 <= i < n ==> s[i].slot < slot
    {
      n := n + 1;
    }
  }

  lemma {:induction false} CountWithinSums(s: seq<SwapTransition>)
    requires forall e :: e in s ==> e.amountX > 0 && e.amountY > 0
    ensures |s| <= SumX(s) && |s| <= SumY(s)
  {
    if s != [] {
      assert s[|s| - 1] in s;
      CountWithinSums(s[..|s| - 1]);
    }
  }

  // ----- permutations -----

  lemma {:induction false} SumsSplit(a: seq<SwapTransition>, b: seq<SwapTransition>)
    ensures SumX(a + b) == SumX(a) + SumX(b)
    ensures SumY(a + b) == SumY(a) + SumY(b)
  {
    if b == [] {
      assert a + b == a;
    } else {
      assert (a + b)[..|a + b| - 1] == a + b[..|b| - 1];
      SumsSplit(a, b[..|b| - 1]);
    }
  }

  lemma SumsAround(a: seq<SwapTransition>, e: SwapTransition, b: seq<SwapTransition>)
    ensures SumX(a + [e] + b) == SumX(a + b) + e.amountX
    ensures SumY(a + [e] + b) == SumY(a + b) + e.amountY
  {
    SumsSplit(a + [e], b);
    SumsSplit(a, b);
    assert (a + [e])[..|a|] == a;
  }

  lemma ContentsAround(a: seq<SwapTransition>, e: SwapTransition, b: seq<SwapTransition>)
    ensures multiset(a + b) == multiset(a + [e] + b) - multiset{e}
  {
  }

  lemma Around(s: seq<SwapTransition>, e: SwapTransition) returns (a: seq<SwapTransition>, b: seq<SwapTransition>)
    requires e in multiset(s)
    ensures s == a + [e] + b
  {
    var i :| 0 <= i < |s| && s[i] == e;
    a, b := s[..i], s[i + 1..];
  }

  lemma {:induction false} SumsOfPermutation(a: seq<SwapTransition>, b: seq<SwapTransition>)
    requires multiset(a) == multiset(b)
    ensures SumX(a) == SumX(b) && SumY(a) == SumY(b)
  {
    if a == [] {
      assert |multiset(b)| == 0;
    } else {
      var rest, e := a[..|a| - 1], a[|a| - 1];
      assert a == rest + [e];
      var b0, b1 := Around(b, e);
      ContentsAround(b0, e, b1);
      SumsAround(b0, e, b1);
      SumsOfPermutation(rest, b0 + b1);
    }
  }

  // ----- scanning a list from the front -----

  lemma ScanNext(s: seq<SwapTransition>, i: nat, cutoff: int)
    requires i < |s|
    ensures var seen, next := Since(s[..i], cutoff), Since(s[..i + 1], cutoff);
            if s[i].slot < cutoff then next == seen
            else
              && next == seen + [s[i]]
              && SumX(next) == SumX(seen) + s[i].amountX && SumY(next) == SumY(seen) + s[i].amountY
  {
    assert s[..i + 1][..i] == s[..i];
    var seen := Since(s[..i], cutoff);
    assert (seen + [s[i]])[..|seen|] == seen;
  }

  /** Sums only grow along a scan, so an overflow found on the way is an overflow of the whole. */
  lemma OverflowStays(s: seq<SwapTransition>, i: nat, cutoff: int)
    requires i <= |s|
    requires var seen := Since(s[..i], cutoff);
             SumX(seen) > MAX_UINT64 || SumY(seen) > MAX_UINT64 || |seen| > MAX_UINT64
    ensures TurnoverOf(Since(s, cutoff)) == Err(ErrVolumeOverflow)
  {
    assert s == s[..i] + s[i..];
    SinceSplit(s[..i], s[i..], cutoff);
    SumsSplit(Since(s[..i], cutoff), Since(s[i..], cutoff));
  }

  lemma {:induction false} SinceCounts(s: seq<SwapTransition>, cutoff: int, e: SwapTransition)
    ensures multiset(Since(s, cutoff))[e] == if e.slot >= cutoff then multiset(s)[e] else 0
  {
    if s != [] {
      assert s == s[..|s| - 1] + [s[|s| - 1]];
      SinceCounts(s[..|s| - 1], cutoff, e);
    }
  }

  lemma {:induction false} SinceSorted(s: seq<SwapTransition>, cutoff: int)
    requires SlotSorted(s)
    ensures SlotSorted(Since(s, cutoff))
  {
    if s != [] {
      var rest := s[..|s| - 1];
      SinceSorted(rest, cutoff);
      SinceMembers(rest, cutoff);
      var kept := Since(rest, cutoff);
      forall i | 0 <= i < |kept| ensures kept[i].slot <= s[|s| - 1].slot {
        assert kept[i] in rest;
      }
    }
  }

  lemma EndsOfPermutation(a: seq<SwapTransition>, b: seq<SwapTransition>)
    requires multiset(a) == multiset(b) && SlotSorted(a) && SlotSorted(b)
    ensures |a| == |b|
    ensures a != [] ==> a[0].slot == b[0].slot && a[|a| - 1].slot == b[|b| - 1].slot
  {
    assert |a| == |multiset(a)| && |b| == |multiset(b)|;
    if a != [] {
      assert a[0] in multiset(b) && a[|a| - 1] in multiset(b);
      assert b[0] in multiset(a) && b[|b| - 1] in multiset(a);
    }
  }

  /** Turnover depends on which swaps are listed, not on how swaps of one slot are ordered. */
  lemma TurnoverOfPermutation(a: seq<SwapTransition>, b: seq<SwapTransition>)
    requires multiset(a) == multiset(b) && SlotSorted(a) && SlotSorted(b)
    ensures TurnoverOf(a) == TurnoverOf(b)
  {
    SumsOfPermutation(a, b);
    EndsOfPermutation(a, b);
  }

  /** Two slot-sorted lists without repetitions that agree on the swaps of a window report the
      same turnover for it. */
  lemma TurnoverOfSameWindow(a: seq<SwapTransition>, b: seq<SwapTransition>, cutoff: int)
    requires SlotSorted(a) && SlotSorted(b)
    requires DistinctIdentities(a) && DistinctIdentities(b)
    requires forall e: SwapTransition :: e.slot >= cutoff ==> (e in a <==> e in b)
    ensures TurnoverOf(Since(a, cutoff)) == TurnoverOf(Since(b, cutoff))
  {
    forall e ensures multiset(Since(a, cutoff))[e] == multiset(Since(b, cutoff))[e] {
      SinceCounts(a, cutoff, e);
      SinceCounts(b, cutoff, e);
      DistinctCounts(a, e);
      DistinctCounts(b, e);
    }
    SinceSorted(a, cutoff);
    SinceSorted(b, cutoff);
    TurnoverOfPermutation(Since(a, cutoff), Since(b, cutoff));
  }

  lemma {:induction false} DistinctCounts(s: seq<SwapTransition>, e: SwapTransition)
    requires DistinctIdentities(s)
    ensures multiset(s)[e] == if e in s then 1 else 0
  {
    if s != [] {
      var rest, last := s[..|s| - 1], s[|s| - 1];
      assert s == rest + [last];
      DistinctCounts(rest, e);
      if e == last {
        assert forall i :: 0 <= i < |rest| ==> rest[i] == s[i] && s[i].Identity() != last.Identity();
      }
    }
  }

  // ----- sorting -----

  lemma IdentityTotal(a: SwapIdentity, b: SwapIdentity)
    ensures a == b || IdentityLess(a, b) || IdentityLess(b, a)
    ensures !(IdentityLess(a, b) && IdentityLess(b, a)) && !IdentityLess(a, a)
  {
    LexTotal(a.txHash, b.txHash);
    LexTotal(a.network, b.network);
    LexTotal(a.protocol, b.protocol);
    LexTotal(a.poolId, b.poolId);
    LexNotBoth(a.txHash, b.txHash);
    LexNotBoth(a.network, b.network);
    LexNotBoth(a.protocol, b.protocol);
    LexNotBoth(a.poolId, b.poolId);
    LexNotBoth(a.poolId, a.poolId);
  }

  lemma LexNotBoth(a: string, b: string)
    ensures !(LexLess(a, b) && LexLess(b, a)) && (a == b ==> !LexLess(a, b))
  {
    if LexLess(a, b) {
      LexAsymmetric(a, b);
    }
  }

  lemma IdentityTransitive(a: SwapIdentity, b: SwapIdentity, c: SwapIdentity)
    requires IdentityLess(a, b) && IdentityLess(b, c)
    ensures IdentityLess(a, c)
  {
    if a.txHash != b.txHash && b.txHash != c.txHash && a.slot == b.slot == c.slot {
      LexTransitive(a.txHash, b.txHash, c.txHash);
      LexNotBoth(a.txHash, c.txHash);
      LexNotBoth(a.txHash, b.txHash);
    } else if a.network != b.network && b.network != c.network && LexLess(a.network, b.network) && LexLess(b.network, c.network) {
      LexTransitive(a.network, b.network, c.network);
      LexNotBoth(a.network, c.network);
    } else if a.protocol != b.protocol && b.protocol != c.protocol && LexLess(a.protocol, b.protocol) && LexLess(b.protocol, c.protocol) {
      LexTransitive(a.protocol, b.protocol, c.protocol);
      LexNotBoth(a.protocol, c.protocol);
    } else if LexLess(a.poolId, b.poolId) && LexLess(b.poolId, c.poolId) {
      LexTransitive(a.poolId, b.poolId, c.poolId);
    }
  }

  /** Sorting by repeated insertion; with distinct identities any sorting gives this result. */
  function Inserted(s: seq<SwapTransition>, e: SwapTransition): seq<SwapTransition> {
    if s == [] || !SwapLess(e, s[|s| - 1]) then s + [e]
    else Inserted(s[..|s| - 1], e) + [s[|s| - 1]]
  }

  function Sorted(s: seq<SwapTransition>): seq<SwapTransition> {
    if s == [] then [] else Inserted(Sorted(s[..|s| - 1]), s[|s| - 1])
  }

  lemma {:induction false} InsertedContents(s: seq<SwapTransition>, e: SwapTransition)
    ensures multiset(Inserted(s, e)) == multiset(s) + multiset{e}
  {
    if s != [] && SwapLess(e, s[|s| - 1]) {
      InsertedContents(s[..|s| - 1], e);
      assert s == s[..|s| - 1] + [s[|s| - 1]];
    }
  }

  lemma {:induction false} InsertedSorted(s: seq<SwapTransition>, e: SwapTransition)
    requires SwapSorted(s)
    ensures SwapSorted(Inserted(s, e))
  {
    if s == [] || !SwapLess(e, s[|s| - 1]) {
      forall i | 0 <= i < |s| ensures !SwapLess(e, s[i]) {
        if i < |s| - 1 && SwapLess(e, s[i]) {
          NotLessTransitive(s[i], s[|s| - 1], e);
        }
      }
    } else {
      var rest, last := s[..|s| - 1], s[|s| - 1];
      InsertedSorted(rest, e);
      InsertedContents(rest, e);
      var ins := Inserted(rest, e);
      forall i | 0 <= i < |ins| ensures !SwapLess(last, ins[i]) {
        assert ins[i] in multiset(ins);
        IdentityTotal(last.Identity(), e.Identity());
        if ins[i] != e {
          assert ins[i] in multiset(rest);
        }
      }
    }
  }

  lemma NotLessTransitive(a: SwapTransition, b: SwapTransition, c: SwapTransition)
    requires !SwapLess(b, a) && !SwapLess(c, b)
    ensures !SwapLess(c, a)
  {
    IdentityTotal(a.Identity(), b.Identity());
    IdentityTotal(b.Identity(), c.Identity());
    IdentityTotal(a.Identity(), c.Identity());
    if SwapLess(c, a) && SwapLess(a, b) {
      IdentityTransitive(c.Identity(), a.Identity(), b.Identity());
    }
  }

  lemma {:induction false} SortedProperties(s: seq<SwapTransition>)
    ensures SwapSorted(Sorted(s))
    ensures multiset(Sorted(s)) == multiset(s)
  {
    if s != [] {
      SortedProperties(s[..|s| - 1]);
      InsertedSorted(Sorted(s[..|s| - 1]), s[|s| - 1]);
      InsertedContents(Sorted(s[..|s| - 1]), s[|s| - 1]);
      assert s == s[..|s| - 1] + [s[|s| - 1]];
    }
  }

  lemma SortedBySlot(s: seq<SwapTransition>)
    requires SwapSorted(s)
    ensures SlotSorted(s)
  {
    forall i, j | 0 <= i < j < |s| ensures s[i].slot <= s[j].slot {
      assert !SwapLess(s[j], s[i]);
    }
  }
}
