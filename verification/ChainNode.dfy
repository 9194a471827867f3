/** What a node does with blocks, competing chains and finality marks, as functions of its state. */
module ChainNode {
  import opened Wrappers
  import opened LedgerTypes
  import opened Ledger
  import opened ChainRules

  const CHECKPOINT_DEPTH: nat := 20

  datatype NodeState = NodeState(
    chain: seq<ChainBlock>,
    books: Books,
    mempool: seq<Tx>,
    powTarget: int,
    posTarget: int,
    finalized: map<nat, BlockHash>)

  datatype Result = Accepted | Refused | RaisedAfterAppend

  /** Drops the pending transactions that a block mined. */
  function Unmined(pending: seq<Tx>, mined: seq<Tx>): (r: seq<Tx>)
    ensures forall tx :: tx in r <==> tx in pending && !Contains(mined, tx.body)
  {
    if pending == [] then []
    else (if Contains(mined, pending[0].body) then [] else [pending[0]]) + Unmined(pending[1..], mined)
  }

  function TargetOfKind(n: NodeState, block: ChainBlock): int {
    if block.staker.Some? then n.posTarget else n.powTarget
  }

  predicate Admissible(p: Primitives, now: int, n: NodeState, block: ChainBlock)
    requires n.chain != []
  {
    && Extends(p, now, n.chain, n.books, block)
    && block.header.target == TargetOfKind(n, block)
    && AllTxValid(block.txs)
    && OpsChecked(n.books, block)
  }

  function Appended(p: Primitives, n: NodeState, block: ChainBlock, books: Books): NodeState {
    var chain := n.chain + [block];
    var next := n.(chain := chain, books := books, mempool := Unmined(n.mempool, block.txs));
    if block.staker.Some? then next.(posTarget := p.nextPos(chain, n.posTarget))
    else next.(powTarget := p.nextPow(chain, n.powTarget))
  }

  /** `accept_block`: the block is appended before its transactions are applied for real, so a swap refused in
      that second pass leaves the block on the chain with part of its effects. */
  function Accept(p: Primitives, now: int, n: NodeState, block: ChainBlock): (NodeState, Result)
    requires n.chain != []
  {
    if !Admissible(p, now, n, block) then (n, Refused)
    else
      match ApplyAll(n.books, block.txs)
      case Stopped(part) => (n.(chain := n.chain + [block], books := part), RaisedAfterAppend)
      case Done(books) => (Appended(p, n, block, books), Accepted)
  }

  // --- Competing chains ---

  function CheckpointIndex(chain: seq<ChainBlock>): nat {
    if |chain| <= CHECKPOINT_DEPTH then 0 else |chain| - CHECKPOINT_DEPTH
  }

  predicate DivergesBeforeCheckpoint(chain: seq<ChainBlock>, candidate: seq<ChainBlock>)
    requires chain != []
  {
    || |candidate| <= CheckpointIndex(chain)
    || exists i :: 0 <= i <= CheckpointIndex(chain) && candidate[i].Hash() != chain[i].Hash()
  }

  predicate ConflictsWithFinality(finalized: map<nat, BlockHash>, candidate: seq<ChainBlock>) {
    exists i :: i in finalized && (i >= |candidate| || candidate[i].Hash() != finalized[i])
  }

  function LastTarget(chain: seq<ChainBlock>, staked: bool, default: int): int {
    if chain == [] then default
    else if Tip(chain).staker.Some? == staked then Tip(chain).header.target
    else LastTarget(Init(chain), staked, default)
  }

  datatype Choice = Adopted | Kept | RaisedInValidation

  /** `replace_chain` */
  function Adopt(p: Primitives, now: int, n: NodeState, candidate: seq<ChainBlock>): (NodeState, Choice)
    requires n.chain != []
  {
    if |candidate| <= |n.chain| || DivergesBeforeCheckpoint(n.chain, candidate)
       || ConflictsWithFinality(n.finalized, candidate) then (n, Kept)
    else
      match Judge(p, now, candidate)
      case Invalid => (n, Kept)
      case Raises => (n, RaisedInValidation)
      case Valid(books) =>
        (NodeState(candidate, books, [], LastTarget(candidate, false, n.powTarget), LastTarget(candidate, true, n.posTarget),
              n.finalized), Adopted)
  }

  /** `mark_bft_finalized`: only a block the node holds can be recorded. */
  function Mark(n: NodeState, index: int, hash: BlockHash): (NodeState, bool) {
    if 0 <= index < |n.chain| && n.chain[index].Hash() == hash then
      (n.(finalized := n.finalized[index := hash]), true)
    else (n, false)
  }

  // --- One block against validation from scratch ---

  /** The chain is valid and the index is what replaying it computes. */
  ghost predicate InSync(p: Primitives, now: int, n: NodeState) {
    Judge(p, now, n.chain) == Valid(n.books)
  }

  /** Accepting one block is validating the longer chain from scratch, and being at the current target of its
      kind; accepting raises exactly when validating does, on a block whose transactions are signed. */
  lemma AcceptIffScratchValid(p: Primitives, now: int, n: NodeState, block: ChainBlock)
    requires InSync(p, now, n)
    ensures n.chain != []
    ensures var scratch := Judge(p, now, n.chain + [block]);
      var current := block.header.target == TargetOfKind(n, block);
      && (Accept(p, now, n, block).1 == Accepted <==> scratch.Valid? && current)
      && (Accept(p, now, n, block).1 == RaisedAfterAppend <==> scratch.Raises? && current && AllTxValid(block.txs))
  {
    JudgeAppend(p, now, n.chain, block);
  }

  /** An accepted block keeps the index equal to the replay of the whole chain. */
  lemma AcceptKeepsSync(p: Primitives, now: int, n: NodeState, block: ChainBlock)
    requires InSync(p, now, n) && n.chain != [] && Accept(p, now, n, block).1 != RaisedAfterAppend
    ensures var next := Accept(p, now, n, block).0;
      InSync(p, now, next) && Replay(next.chain) == Done(next.books)
  {
    JudgeAppend(p, now, n.chain, block);
    JudgeReplays(p, now, Accept(p, now, n, block).0.chain);
  }

  lemma AdoptKeepsSync(p: Primitives, now: int, n: NodeState, candidate: seq<ChainBlock>)
    requires InSync(p, now, n) && n.chain != []
    ensures var next := Adopt(p, now, n, candidate).0;
      InSync(p, now, next) && Replay(next.chain) == Done(next.books)
  {
    JudgeReplays(p, now, Adopt(p, now, n, candidate).0.chain);
  }

  /** The new node starts in sync on the block that mints the premine. */
  function NewNode(): NodeState {
    NodeState([GENESIS], Credit(EMPTY_BOOKS, PREMINE_ADDRESS, OCN, PREMINE.amount), [], INITIAL_TARGET, POS_INITIAL_TARGET, map[])
  }

  lemma NewNodeInSync(p: Primitives, now: int)
    ensures InSync(p, now, NewNode()) && Replay(NewNode().chain) == Done(NewNode().books)
  {
    var next := Apply(EMPTY_BOOKS, PREMINE).books;
    assert GENESIS.txs[1..] == [];
    assert ApplyAll(EMPTY_BOOKS, GENESIS.txs) == ApplyAll(next, []);
    JudgeReplays(p, now, NewNode().chain);
  }

  // --- History ---

  ghost predicate FinalizedHeld(n: NodeState) {
    forall i :: i in n.finalized ==> i < |n.chain| && n.chain[i].Hash() == n.finalized[i]
  }

  /** Nothing at or below the checkpoint changes its hash, the chain is not shorter, and no mark is dropped. */
  ghost predicate HistoryKept(n: NodeState, next: NodeState) {
    && |next.chain| >= |n.chain|
    && (forall i :: 0 <= i <= CheckpointIndex(n.chain) && i < |n.chain| ==> next.chain[i].Hash() == n.chain[i].Hash())
    && (forall i :: i in n.finalized ==> i in next.finalized && next.finalized[i] == n.finalized[i])
  }

  lemma AcceptHistory(p: Primitives, now: int, n: NodeState, block: ChainBlock)
    requires n.chain != [] && FinalizedHeld(n)
    ensures var next := Accept(p, now, n, block).0; HistoryKept(n, next) && FinalizedHeld(next)
  {
  }

  lemma AdoptHistory(p: Primitives, now: int, n: NodeState, candidate: seq<ChainBlock>)
    requires n.chain != [] && FinalizedHeld(n)
    ensures var next := Adopt(p, now, n, candidate).0; HistoryKept(n, next) && FinalizedHeld(next)
  {
    if Adopt(p, now, n, candidate).1 == Adopted {
      forall i | i in n.finalized ensures i < |candidate| && candidate[i].Hash() == n.finalized[i] {
        assert !(i >= |candidate| || candidate[i].Hash() != n.finalized[i]);
      }
    }
  }

  lemma MarkHistory(n: NodeState, index: int, hash: BlockHash)
    requires n.chain != [] && FinalizedHeld(n)
    ensures var next := Mark(n, index, hash).0; HistoryKept(n, next) && FinalizedHeld(next)
    ensures Mark(n, index, hash).1 <==> 0 <= index < |n.chain| && n.chain[index].Hash() == hash
  {
  }
}
