/** The client state that streams blocks to subscribers (internal/node/chainsync.go). A channel is
    the sequence of the messages sent on it. */
module ChainSync {
  import opened Words
  import opened ChainSyncSpec

  class ChainsyncClientState {
    var recentBlocks: seq<Block>
    var subs: map<ConnectionId, seq<Block>>
    ghost var chain: seq<Block>

    ghost function View(): State
      reads this
    {
      State(recentBlocks, subs, chain)
    }

    ghost predicate Valid()
      reads this
    {
      InStep(View())
    }

    constructor ()
      ensures Valid() && View() == Run([])
    {
      recentBlocks, subs, chain := [], map[], [];
    }

    /** The replay fits the buffer of the new channel, so it never blocks. */
    method Sub(key: ConnectionId) returns (sent: seq<Block>)
      requires Valid()
      modifies this
      ensures Valid() && View() == Apply(old(View()), ChainSyncSpec.Sub(key)) && sent == subs[key]
      ensures |sent| <= CLIENT_BLOCK_BUFFER_SIZE && Fold(sent) == recentBlocks
    {
      ghost var next := Apply(View(), ChainSyncSpec.Sub(key));
      StepInStep(View(), ChainSyncSpec.Sub(key));
      ReplayFits(View());
      sent := Sent(recentBlocks);
      subs := subs[key := sent];
      assert View() == next;
    }

    static method Sent(blocks: seq<Block>) returns (sent: seq<Block>)
      ensures sent == blocks
    {
      sent := [];
      for i := 0 to |blocks|
        invariant sent == blocks[..i]
      {
        sent := sent + [blocks[i]];
      }
    }

    method Unsub(key: ConnectionId)
      requires Valid()
      modifies this
      ensures Valid() && View() == Apply(old(View()), ChainSyncSpec.Unsub(key))
    {
      StepInStep(View(), ChainSyncSpec.Unsub(key));
      if key in subs {
        subs := subs - {key};
      }
      assert subs == old(subs) - {key};
    }

    /** Any block is taken; one that is newer than the chain keeps everything in step. */
    method AddBlock(block: Block)
      modifies this
      ensures View() == Apply(old(View()), ChainSyncSpec.AddBlock(block))
      ensures old(Valid()) && Allowed(old(View()), ChainSyncSpec.AddBlock(block)) ==> Valid()
    {
      if Valid() && Allowed(View(), ChainSyncSpec.AddBlock(block)) {
        StepInStep(View(), ChainSyncSpec.AddBlock(block));
      }
      recentBlocks := recentBlocks + [block];
      if |recentBlocks| > MAX_RECENT_BLOCKS {
        recentBlocks := recentBlocks[|recentBlocks| - MAX_RECENT_BLOCKS..];
      }
      assert recentBlocks == Trimmed(old(recentBlocks) + [block]);
      chain := chain + [block];
      Publish(block);
    }

    method Rollback(slot: uint64, hash: string)
      requires Valid()
      modifies this
      ensures Valid() && View() == Apply(old(View()), ChainSyncSpec.Rollback(slot, hash))
      ensures subs.Keys == old(subs).Keys
      ensures forall k :: k in subs ==>
        && |subs[k]| == |old(subs)[k]| + 1
        && var sent := subs[k][|old(subs)[k]|]; sent.rollback && sent.tip.slotNumber == slot && sent.tip.blockHash == hash
    {
      StepInStep(View(), ChainSyncSpec.Rollback(slot, hash));
      CutRecent(slot);
      chain := Cut(chain, slot);
      Publish(RollbackTo(slot, hash));
    }

    method CutRecent(slot: uint64)
      modifies this`recentBlocks
      ensures recentBlocks == Cut(old(recentBlocks), slot)
    {
      ghost var n := CutAt(recentBlocks, slot);
      var idx := 0;
      while idx < |recentBlocks|
        invariant idx <= |recentBlocks| && recentBlocks == old(recentBlocks)
        invariant forall i :: 0 <= i < idx ==> recentBlocks[i].tip.slotNumber <= slot
      {
        if recentBlocks[idx].tip.slotNumber > slot {
          assert idx == n;
          recentBlocks := recentBlocks[..idx];
          break;
        }
        idx := idx + 1;
      }
    }

    method Publish(message: Block)
      modifies this`subs
      ensures subs == Published(old(subs), message)
    {
      ghost var before := subs;
      var left := subs.Keys;
      while left != {}
        invariant left <= before.Keys && subs.Keys == before.Keys
        invariant forall k :: k in before ==> subs[k] == if k in left then before[k] else before[k] + [message]
        decreases left
      {
        var k :| k in left;
        subs := subs[k := subs[k] + [message]];
        left := left - {k};
      }
    }
  }
}
