/** The recent blocks of a chain that rolls back, and the messages streamed to the subscribers of
    that chain (internal/node/chainsync.go). */
module ChainSyncSpec {
  import opened Words

  const MAX_RECENT_BLOCKS := 20
  const CLIENT_BLOCK_BUFFER_SIZE := 50

  datatype Tip = Tip(slotNumber: uint64, blockHash: string, blockNumber: uint64)

  /** A block, or a rollback to a point. */
  datatype Block = Block(tip: Tip, cbor: string, kind: nat, rollback: bool)

  type ConnectionId = string

  function RollbackTo(slot: uint64, hash: string): Block { Block(Tip(slot, hash, 0), "", 0, true) }

  // ----- one chain -----

  /** The blocks before the first one newer than the slot. */
  function Cut(chain: seq<Block>, slot: uint64): seq<Block> {
    if chain == [] || chain[0].tip.slotNumber > slot then [] else [chain[0]] + Cut(chain[1..], slot)
  }

  function Trimmed(chain: seq<Block>): seq<Block> {
    if |chain| > MAX_RECENT_BLOCKS then chain[|chain| - MAX_RECENT_BLOCKS..] else chain
  }

  function Received(chain: seq<Block>, message: Block): seq<Block> {
    if message.rollback then Cut(chain, message.tip.slotNumber) else chain + [message]
  }

  /** The chain a reader of the messages holds that never forgets a block. */
  function Fold(messages: seq<Block>): seq<Block> {
    if messages == [] then [] else Received(Fold(messages[..|messages| - 1]), messages[|messages| - 1])
  }

  predicate Older(a: Block, b: Block) { a.tip.slotNumber < b.tip.slotNumber }

  predicate SlotSorted(chain: seq<Block>) {
    forall i, j :: 0 <= i < j < |chain| ==> Older(chain[i], chain[j])
  }

  predicate OnlyBlocks(chain: seq<Block>) { forall i :: 0 <= i < |chain| ==> !chain[i].rollback }

  predicate IsSuffix(a: seq<Block>, b: seq<Block>) { |a| <= |b| && a == b[|b| - |a|..] }

  lemma SuffixSorted(a: seq<Block>, b: seq<Block>)
    requires IsSuffix(a, b) && SlotSorted(b) && OnlyBlocks(b)
    ensures SlotSorted(a) && OnlyBlocks(a)
  {
    var d := |b| - |a|;
    forall i, j | 0 <= i < j < |a| ensures Older(a[i], a[j]) {
      assert Older(b[d + i], b[d + j]);
    }
  }

  lemma {:induction false} CutAt(chain: seq<Block>, slot: uint64) returns (n: nat)
    ensures n <= |chain| && Cut(chain, slot) == chain[..n]
    ensures forall i :: 0 <= i < n ==> chain[i].tip.slotNumber <= slot
    ensures n < |chain| ==> chain[n].tip.slotNumber > slot
  {
    if chain == [] || chain[0].tip.slotNumber > slot {
      n := 0;
    } else {
      var m := CutAt(chain[1..], slot);
      n := m + 1;
      assert chain[..n] == [chain[0]] + chain[1..][..m];
      assert forall i :: 1 <= i < |chain| ==> chain[i] == chain[1..][i - 1];
    }
  }

  /** In a sorted chain everything from the first newer block on is newer. */
  lemma NewerFrom(chain: seq<Block>, n: nat, slot: uint64)
    requires SlotSorted(chain) && n < |chain| && chain[n].tip.slotNumber > slot
    ensures forall i :: n <= i < |chain| ==> chain[i].tip.slotNumber > slot
  {
    forall i | n <= i < |chain| ensures chain[i].tip.slotNumber > slot {
      assert i > n ==> Older(chain[n], chain[i]);
    }
  }

  /** The cut is where the newer blocks start. */
  lemma CutIs(chain: seq<Block>, slot: uint64, n: nat)
    requires n <= |chain| && forall i :: 0 <= i < n ==> chain[i].tip.slotNumber <= slot
    requires n < |chain| ==> chain[n].tip.slotNumber > slot
    ensures Cut(chain, slot) == chain[..n]
  {
    var m := CutAt(chain, slot);
    assert m == n;
  }

  lemma SuffixCutIs(b: seq<Block>, d: nat, n: nat, m: nat, slot: uint64)
    requires d <= |b| && n <= |b| && m == (if n < d then 0 else n - d)
    requires forall i :: 0 <= i < n ==> b[i].tip.slotNumber <= slot
    requires forall i :: n <= i < |b| ==> b[i].tip.slotNumber > slot
    ensures m <= |b| - d && Cut(b[d..], slot) == b[d..][..m]
  {
    assert forall i :: 0 <= i < |b| - d ==> b[d..][i] == b[d + i];
    CutIs(b[d..], slot, m);
  }

  /** Cutting a sorted chain cuts its suffixes at the same block. */
  lemma CutSuffix(a: seq<Block>, b: seq<Block>, slot: uint64)
    requires IsSuffix(a, b) && SlotSorted(b)
    ensures IsSuffix(Cut(a, slot), Cut(b, slot))
  {
    var n := CutAt(b, slot);
    var d := |b| - |a|;
    if n < |b| {
      NewerFrom(b, n, slot);
    }
    var m := if n < d then 0 else n - d;
    SuffixCutIs(b, d, n, m, slot);
    assert b[..n][n - m..] == a[..m];
  }

  lemma CutSorted(chain: seq<Block>, slot: uint64)
    requires SlotSorted(chain) && OnlyBlocks(chain)
    ensures SlotSorted(Cut(chain, slot)) && OnlyBlocks(Cut(chain, slot))
    ensures forall b :: b in Cut(chain, slot) <==> b in chain && b.tip.slotNumber <= slot
  {
    var n := CutAt(chain, slot);
    if n < |chain| {
      NewerFrom(chain, n, slot);
    }
    assert chain == chain[..n] + chain[n..];
  }

  lemma TrimmedSuffix(a: seq<Block>, b: seq<Block>, block: Block)
    requires IsSuffix(a, b)
    ensures IsSuffix(Trimmed(a + [block]), b + [block])
  {
  }

  lemma AppendSuffix(a: seq<Block>, b: seq<Block>, block: Block)
    requires IsSuffix(a, b)
    ensures IsSuffix(a + [block], b + [block])
  {
  }

  // ----- the stream -----

  /** The recent blocks, the messages sent to each subscriber since it subscribed, and the whole
      chain since the start. */
  datatype State = State(recent: seq<Block>, sent: map<ConnectionId, seq<Block>>, chain: seq<Block>)

  datatype Op =
    | Sub(key: ConnectionId)
    | Unsub(key: ConnectionId)
    | AddBlock(block: Block)
    | Rollback(slot: uint64, hash: string)

  function Published(sent: map<ConnectionId, seq<Block>>, message: Block): map<ConnectionId, seq<Block>> {
    map k | k in sent :: sent[k] + [message]
  }

  function Apply(s: State, op: Op): State {
    match op
    case Sub(key) => s.(sent := s.sent[key := s.recent])
    case Unsub(key) => s.(sent := s.sent - {key})
    case AddBlock(block) =>
      State(Trimmed(s.recent + [block]), Published(s.sent, block), s.chain + [block])
    case Rollback(slot, hash) =>
      State(Cut(s.recent, slot), Published(s.sent, RollbackTo(slot, hash)), Cut(s.chain, slot))
  }

  /** Blocks arrive in slot order on the chain as it stands after the rollbacks. */
  ghost predicate Allowed(s: State, op: Op) {
    op.AddBlock? ==> !op.block.rollback && forall b :: b in s.chain ==> Older(b, op.block)
  }

  function Run(ops: seq<Op>): State {
    if ops == [] then State([], map[], []) else Apply(Run(ops[..|ops| - 1]), ops[|ops| - 1])
  }

  ghost predicate IsRun(ops: seq<Op>) {
    ops == [] || (IsRun(ops[..|ops| - 1]) && Allowed(Run(ops[..|ops| - 1]), ops[|ops| - 1]))
  }

  ghost predicate Reads(s: State, messages: seq<Block>) {
    IsSuffix(s.recent, Fold(messages)) && IsSuffix(Fold(messages), s.chain)
  }

  ghost predicate InStep(s: State) {
    && |s.recent| <= MAX_RECENT_BLOCKS && SlotSorted(s.chain) && OnlyBlocks(s.chain) && IsSuffix(s.recent, s.chain)
    && forall k :: k in s.sent ==> Reads(s, s.sent[k])
  }

  lemma FoldNext(messages: seq<Block>, message: Block)
    ensures Fold(messages + [message]) == Received(Fold(messages), message)
  {
    assert (messages + [message])[..|messages|] == messages;
  }

  lemma {:induction false} FoldBlocks(blocks: seq<Block>)
    requires OnlyBlocks(blocks)
    ensures Fold(blocks) == blocks
  {
    if blocks != [] {
      FoldBlocks(blocks[..|blocks| - 1]);
    }
  }

  lemma AppendSorted(chain: seq<Block>, block: Block)
    requires SlotSorted(chain) && OnlyBlocks(chain) && !block.rollback && forall b :: b in chain ==> Older(b, block)
    ensures SlotSorted(chain + [block]) && OnlyBlocks(chain + [block])
  {
  }

  lemma AddBlockReads(s: State, messages: seq<Block>, block: Block)
    requires Reads(s, messages) && !block.rollback
    ensures Reads(Apply(s, AddBlock(block)), messages + [block])
  {
    FoldNext(messages, block);
    TrimmedSuffix(s.recent, Fold(messages), block);
    AppendSuffix(Fold(messages), s.chain, block);
  }

  lemma RollbackReads(s: State, messages: seq<Block>, slot: uint64, hash: string)
    requires Reads(s, messages) && SlotSorted(s.chain) && OnlyBlocks(s.chain)
    ensures Reads(Apply(s, Rollback(slot, hash)), messages + [RollbackTo(slot, hash)])
  {
    FoldNext(messages, RollbackTo(slot, hash));
    SuffixSorted(Fold(messages), s.chain);
    CutSuffix(s.recent, Fold(messages), slot);
    CutSuffix(Fold(messages), s.chain, slot);
  }

  /** What a new subscriber is sent: it fits the buffer, and reading it gives the recent blocks. */
  lemma ReplayFits(s: State)
    requires InStep(s)
    ensures |s.recent| <= CLIENT_BLOCK_BUFFER_SIZE && Fold(s.recent) == s.recent
  {
    SuffixSorted(s.recent, s.chain);
    FoldBlocks(s.recent);
  }

  lemma StepInStep(s: State, op: Op)
    requires InStep(s) && Allowed(s, op)
    ensures InStep(Apply(s, op))
  {
    var n := Apply(s, op);
    match op {
      case Sub(key) =>
        SuffixSorted(s.recent, s.chain);
        FoldBlocks(s.recent);
        forall k | k in n.sent ensures Reads(n, n.sent[k]) {
          assert k != key ==> Reads(s, s.sent[k]);
        }
      case Unsub(key) =>
        forall k | k in n.sent ensures Reads(n, n.sent[k]) {
          assert Reads(s, s.sent[k]);
        }
      case AddBlock(block) =>
        AppendSorted(s.chain, block);
        TrimmedSuffix(s.recent, s.chain, block);
        forall k | k in n.sent ensures Reads(n, n.sent[k]) {
          AddBlockReads(s, s.sent[k], block);
        }
      case Rollback(slot, hash) =>
        CutSorted(s.chain, slot);
        CutSuffix(s.recent, s.chain, slot);
        var m := CutAt(s.recent, slot);
        forall k | k in n.sent ensures Reads(n, n.sent[k]) {
          RollbackReads(s, s.sent[k], slot, hash);
        }
    }
  }

  /** On every run, the recent blocks are at most twenty, in slot order, and the newest of what each
      subscriber holds, which is in turn the newest of the chain. */
  lemma {:induction false} RunInStep(ops: seq<Op>)
    requires IsRun(ops)
    ensures InStep(Run(ops)) && SlotSorted(Run(ops).recent)
  {
    if ops == [] {
    } else {
      RunInStep(ops[..|ops| - 1]);
      StepInStep(Run(ops[..|ops| - 1]), ops[|ops| - 1]);
    }
    SuffixSorted(Run(ops).recent, Run(ops).chain);
  }

  /** A new block is the newest of the recent ones, and as many as fit in twenty stay before it. */
  lemma AddBlockKeepsTwenty(s: State, block: Block)
    requires |s.recent| <= 20
    ensures var recent := Apply(s, AddBlock(block)).recent;
      && |recent| == (if |s.recent| < 20 then |s.recent| + 1 else 20)
      && IsSuffix(recent, s.recent + [block])
  {
  }

  /** Without rollbacks the recent blocks are the newest twenty of the chain, or all of it. */
  lemma {:induction false} RecentAreNewestTwenty(ops: seq<Op>)
    requires IsRun(ops) && forall i :: 0 <= i < |ops| ==> !ops[i].Rollback?
    ensures var s := Run(ops);
      |s.recent| == (if |s.chain| < 20 then |s.chain| else 20) && IsSuffix(s.recent, s.chain)
  {
    if ops != [] {
      RecentAreNewestTwenty(ops[..|ops| - 1]);
      RunInStep(ops);
    }
  }

  /** A rollback forgets exactly the newer blocks, for the chain and for every subscriber. */
  lemma RollbackForgetsNewer(ops: seq<Op>, key: ConnectionId, slot: uint64, hash: string)
    requires IsRun(ops) && key in Run(ops).sent
    ensures var before, after := Fold(Run(ops).sent[key]), Fold(Apply(Run(ops), Rollback(slot, hash)).sent[key]);
      forall b :: b in after <==> b in before && b.tip.slotNumber <= slot
  {
    RunInStep(ops);
    var messages := Run(ops).sent[key];
    assert Reads(Run(ops), messages);
    SuffixSorted(Fold(messages), Run(ops).chain);
    CutSorted(Fold(messages), slot);
    FoldNext(messages, RollbackTo(slot, hash));
  }
}
