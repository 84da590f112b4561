/** What one batch of a rollback does to the disk it finds: how far the budget reaches, and what a
    restart after it would still count (internal/oracle/activity_storage.go). */
module ActivityBatches {
  import opened Words
  import opened Text
  import opened Dex
  import opened ActivitySpec
  import opened ActivityStore

  // ----- the listing from the newest key down -----

  ghost function NewestFirst(keys: set<string>): seq<string>
    decreases |keys|
  {
    if keys == {} then []
    else
      GreatestExists(keys);
      var key :| IsGreatest(keys, key);
      [key] + NewestFirst(keys - {key})
  }

  lemma {:induction false} NewestFirstLists(keys: set<string>)
    ensures Descending(NewestFirst(keys))
    ensures forall k :: k in NewestFirst(keys) <==> k in keys
    decreases |keys|
  {
    if keys != {} {
      var d := NewestFirst(keys);
      var key, rest := d[0], d[1..];
      NewestFirstHead(keys);
      NewestFirstLists(keys - {key});
      assert d == [key] + rest;
      forall i, j | 0 <= i < j < |d| ensures Ordered(d, j, i) {
        assert d[j] in rest;
        if i > 0 {
          assert Ordered(rest, j - 1, i - 1);
        }
      }
    }
  }

  lemma NewestFirstHead(keys: set<string>)
    requires keys != {}
    ensures var d := NewestFirst(keys); d != [] && IsGreatest(keys, d[0]) && d[1..] == NewestFirst(keys - {d[0]})
  {
    GreatestExists(keys);
  }

  /** A descending list is determined by its members. */
  lemma {:induction false} ListedDown(a: seq<string>, b: seq<string>)
    requires Descending(a) && Descending(b) && forall k :: k in a <==> k in b
    ensures a == b
  {
    if a == [] {
      HasHead(b);
    } else {
      HasHead(a);
      assert b != [] by {
        assert a[0] in b;
      }
      SameHead(a, b);
      TailDescends(a);
      TailDescends(b);
      forall k ensures k in a[1..] <==> k in b[1..] {
        TailMembers(a, k);
        TailMembers(b, k);
      }
      ListedDown(a[1..], b[1..]);
      assert a == [a[0]] + a[1..] && b == [b[0]] + b[1..];
    }
  }

  lemma HasHead(a: seq<string>)
    ensures a == [] || a[0] in a
  {
  }

  lemma SameHead(a: seq<string>, b: seq<string>)
    requires Descending(a) && Descending(b) && a != [] && b != [] && forall k :: k in a <==> k in b
    ensures a[0] == b[0]
  {
    assert a[0] in b && b[0] in a;
    var i :| 0 <= i < |b| && b[i] == a[0];
    var j :| 0 <= j < |a| && a[j] == b[0];
    assert i > 0 ==> Ordered(b, i, 0);
    assert j > 0 ==> Ordered(a, j, 0);
    if LexLess(a[0], b[0]) {
      LexAsymmetric(a[0], b[0]);
    }
  }

  lemma TailDescends(a: seq<string>)
    requires Descending(a) && a != []
    ensures Descending(a[1..])
  {
    forall i, j | 0 <= i < j < |a| - 1 ensures Ordered(a[1..], j, i) {
      assert Ordered(a, j + 1, i + 1);
    }
  }

  lemma TailMembers(a: seq<string>, k: string)
    requires Descending(a) && a != []
    ensures k in a[1..] <==> k in a && k != a[0]
  {
    assert a == [a[0]] + a[1..];
    forall i | 0 < i < |a| ensures a[i] != a[0] {
      assert Ordered(a, i, 0);
      LexAsymmetric(a[i], a[0]);
    }
  }

  // ----- when one batch is enough -----

  function KeysFrom(swaps: SwapTable, slot: uint64): set<string> { set k | k in swaps && swaps[k].slot >= slot }

  /** The budget reaches the start of every slot that is rolled back, from the newest down. */
  ghost predicate OneBatch(swaps: SwapTable, slot: uint64, maxCount: int, maxSize: int) {
    var keys := NewestFirst(KeysFrom(swaps, slot));
    NewestFirstLists(KeysFrom(swaps, slot));
    OnBudget(swaps, maxCount, maxSize, keys)
  }

  lemma JoinedDescends(a: seq<string>, b: seq<string>)
    requires Descending(a) && Descending(b) && forall x, y :: x in a && y in b ==> LexLess(y, x)
    ensures Descending(a + b)
  {
    var c := a + b;
    forall i, j | 0 <= i < j < |c| ensures Ordered(c, j, i) {
      if j < |a| {
        assert Ordered(a, j, i);
      } else if i >= |a| {
        assert Ordered(b, j - |a|, i - |a|);
      } else {
        assert c[i] in a && c[j] in b;
      }
    }
  }

  /** What is selected is a prefix of the listing of all keys to delete, and what follows it is the
      listing of the rest. */
  lemma SelectedIsPrefix(swaps: SwapTable, slot: uint64, maxCount: int, maxSize: int,
                         keys: seq<string>, lowest: uint64, done: bool)
    requires WellKeyed(swaps) && RollbackSelection(swaps, slot, maxCount, maxSize, keys, lowest, done)
    ensures NewestFirst(KeysFrom(swaps, slot)) == keys + NewestFirst(KeysFrom(swaps, slot) - (set k | k in keys))
  {
    var all := KeysFrom(swaps, slot);
    var rest := all - (set k | k in keys);
    NewestFirstLists(all);
    NewestFirstLists(rest);
    forall x, y | x in keys && y in NewestFirst(rest) ensures LexLess(y, x) {
      assert swaps[y].slot < swaps[x].slot && x == ActivityKey(swaps[x]) && y == ActivityKey(swaps[y]);
      KeyOrderIsSlotOrder(swaps[y], swaps[x]);
    }
    JoinedDescends(keys, NewestFirst(rest));
    forall k ensures k in NewestFirst(all) <==> k in keys + NewestFirst(rest) {
      assert k in keys ==> k in all;
    }
    ListedDown(NewestFirst(all), keys + NewestFirst(rest));
  }

  /** The batch is the last one exactly when the budget reaches every slot. */
  lemma LastBatchIff(swaps: SwapTable, slot: uint64, maxCount: int, maxSize: int,
                     keys: seq<string>, lowest: uint64, done: bool)
    requires WellKeyed(swaps) && RollbackSelection(swaps, slot, maxCount, maxSize, keys, lowest, done)
    ensures done <==> OneBatch(swaps, slot, maxCount, maxSize)
  {
    var all := KeysFrom(swaps, slot);
    var rest := all - (set k | k in keys);
    SelectedIsPrefix(swaps, slot, maxCount, maxSize, keys, lowest, done);
    NewestFirstLists(all);
    if done {
      assert rest == {};
      assert keys + [] == keys;
    } else {
      var next :| IsGreatest(swaps.Keys - (set d | d in keys), next) && swaps[next].slot >= slot
                  && !Fits(keys + [next], maxCount, maxSize);
      BudgetEnds(swaps, slot, maxCount, maxSize, keys, lowest, next);
    }
  }

  lemma BudgetEnds(swaps: SwapTable, slot: uint64, maxCount: int, maxSize: int, keys: seq<string>, lowest: uint64, next: string)
    requires RollbackSelection(swaps, slot, maxCount, maxSize, keys, lowest, false)
    requires IsGreatest(swaps.Keys - (set d | d in keys), next) && swaps[next].slot >= slot
    requires !Fits(keys + [next], maxCount, maxSize)
    requires NewestFirst(KeysFrom(swaps, slot)) == keys + NewestFirst(KeysFrom(swaps, slot) - (set k | k in keys))
    ensures !OneBatch(swaps, slot, maxCount, maxSize)
  {
    var d := NewestFirst(KeysFrom(swaps, slot));
    var rest := KeysFrom(swaps, slot) - (set k | k in keys);
    assert next in rest;
    NewestFirstHead(rest);
    var head := NewestFirst(rest)[0];
    if head != next {
      LexAsymmetric(head, next);
    }
    assert d[|keys|] == next && d[|keys| - 1] == keys[|keys| - 1];
    assert d[..|keys| + 1] == keys + [next];
    assert swaps[next].slot != swaps[keys[|keys| - 1]].slot;
    NewestFirstLists(KeysFrom(swaps, slot));
  }

  // ----- what a restart would still count -----

  /** A rolled-back swap that a restart would still count: it is stored at or below the recorded
      tip. */
  ghost predicate StillCounted(d: Disk, slot: uint64, k: string) {
    k in d.swaps && d.meta.Some? && slot <= d.swaps[k].slot <= d.meta.value.latest
  }

  lemma LastBatchLeavesNone(before: Disk, slot: uint64, maxCount: int, maxSize: int, after: Disk, k: string)
    requires Batch(before, slot, maxCount, maxSize, after, true)
    ensures !StillCounted(after, slot, k)
  {
  }

  lemma OtherBatchLeavesOne(before: Disk, slot: uint64, maxCount: int, maxSize: int, after: Disk) returns (k: string)
    requires Batch(before, slot, maxCount, maxSize, after, false) && before.meta.Some?
    requires forall k :: k in before.swaps ==> before.swaps[k].slot <= before.meta.value.latest
    ensures StillCounted(after, slot, k)
  {
    var keys, lowest: uint64 :| RollbackSelection(before.swaps, slot, maxCount, maxSize, keys, lowest, false)
      && after == before.(meta := Rewound(before.meta, lowest), swaps := Without(before.swaps, keys));
    k :| IsGreatest(before.swaps.Keys - (set d | d in keys), k) && before.swaps[k].slot >= slot;
    assert k in before.swaps && k !in keys;
  }

  /** After a batch some rolled-back swap is still counted exactly when the budget did not reach every
      slot that is rolled back; then the batch is not the last. */
  lemma BatchLeavesCountedIff(before: Disk, slot: uint64, maxCount: int, maxSize: int, after: Disk, done: bool)
    requires DiskOk(before) && Batch(before, slot, maxCount, maxSize, after, done)
    ensures (exists k :: StillCounted(after, slot, k)) <==> !OneBatch(before.swaps, slot, maxCount, maxSize)
    ensures done <==> OneBatch(before.swaps, slot, maxCount, maxSize)
  {
    var keys, lowest: uint64 :| RollbackSelection(before.swaps, slot, maxCount, maxSize, keys, lowest, done);
    LastBatchIff(before.swaps, slot, maxCount, maxSize, keys, lowest, done);
    if done {
      forall k ensures !StillCounted(after, slot, k) {
        LastBatchLeavesNone(before, slot, maxCount, maxSize, after, k);
      }
    } else {
      SomethingStored(before, slot, maxCount, maxSize, after);
      var k := OtherBatchLeavesOne(before, slot, maxCount, maxSize, after);
    }
  }

  lemma SomethingStored(before: Disk, slot: uint64, maxCount: int, maxSize: int, after: Disk)
    requires DiskOk(before) && Batch(before, slot, maxCount, maxSize, after, false)
    ensures before.meta.Some?
    ensures forall k :: k in before.swaps ==> before.swaps[k].slot <= before.meta.value.latest
  {
    var keys, lowest: uint64 :| RollbackSelection(before.swaps, slot, maxCount, maxSize, keys, lowest, false);
    assert keys[0] in keys && keys[0] in before.swaps;
    forall k | k in before.swaps ensures before.swaps[k].slot <= before.meta.value.latest {
      assert ValidSwap(before.swaps[k], before.meta.value.latest);
    }
  }

  /** Two swaps, at slots 5 and 7, rolled back to 5 one key at a time: after the first batch the tip
      is 6 and the swap at 5 is still counted. */
  lemma InterruptedRollbackCounts(before: Disk, first: SwapTransition, recent: SwapTransition, maxSize: int)
    requires before.meta == Some(Metadata(10, 7)) && first.slot == 5 && recent.slot == 7
    requires before.swaps == map[ActivityKey(first) := first, ActivityKey(recent) := recent]
    ensures var after := before.(meta := Some(Metadata(10, 6)), swaps := map[ActivityKey(first) := first]);
      Batch(before, 5, 1, maxSize, after, false) && StillCounted(after, 5, ActivityKey(first))
  {
    var a, b := ActivityKey(first), ActivityKey(recent);
    KeyOrderIsSlotOrder(first, recent);
    LexAsymmetric(a, b);
    var keys := [b];
    assert before.swaps.Keys - (set d | d in keys) == {a};
    assert IsGreatest({a}, a) && !Fits(keys + [a], 1, maxSize);
    assert StopsForBudget(before.swaps, 5, 1, maxSize, keys);
    assert RollbackSelection(before.swaps, 5, 1, maxSize, keys, 7, false);
    assert Without(before.swaps, keys) == map[a := first];
  }
}
