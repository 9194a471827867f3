/** The rules a block must meet, and validating a whole chain from scratch. */
module ChainRules {
  import opened Wrappers
  import opened LedgerTypes
  import opened Rounding
  import opened Ledger
  import opened FixedPoint
  import Merkle
  import MedianTime

  const ACTIVATION_HEIGHT := 90
  const MAX_FUTURE_DRIFT := 7200 * MICRO
  const COINBASE_TOLERANCE := 1

  const TWO_256 := 0x1_0000000000000000_0000000000000000_0000000000000000_0000000000000000
  const INITIAL_TARGET := TWO_256 / 0x2000
  const PREMINE_COINS := 5_000_000_000
  const POS_INITIAL_TARGET := TWO_256 / (15 * PREMINE_COINS)
  const PREMINE_ADDRESS := User(0)

  const PREMINE := TxBody(Network, PREMINE_ADDRESS, PREMINE_COINS * MICRO, 0, 0, None)
  const GENESIS := ChainBlock(Header(0, 0, Leaf(PREMINE), NoBlock, INITIAL_TARGET, 0), [Tx(PREMINE, false)], None)

  /** What the model takes as given: the numeric values of the two proof hashes, and the retargeting rules. */
  datatype Primitives = Primitives(
    powValue: BlockHash -> int,
    kernelValue: (BlockHash, Addr, int) -> int,
    nextPow: (seq<ChainBlock>, int) -> int,
    nextPos: (seq<ChainBlock>, int) -> int)

  /** Python's int() on a value kept in millionths. */
  function Whole(micro: int): int {
    if micro >= 0 then micro / MICRO else -(-micro / MICRO)
  }

  function Times(chain: seq<ChainBlock>): (r: seq<int>)
    ensures |r| == |chain| && forall i :: 0 <= i < |chain| ==> r[i] == chain[i].header.timestamp
  {
    seq(|chain|, i requires 0 <= i < |chain| => chain[i].header.timestamp)
  }

  predicate TimestampOk(now: int, before: seq<ChainBlock>, timestamp: int) {
    && timestamp <= now + MAX_FUTURE_DRIFT
    && (before != [] ==> timestamp > MedianTime.Median(MedianTime.Recent(Times(before))))
  }

  /** Proof of work for a mined block, the stake kernel for a staked one, against the block's own target. */
  predicate ProducerOk(p: Primitives, books: Books, block: ChainBlock) {
    match block.staker
    case None => p.powValue(block.Hash()) < block.header.target
    case Some(staker) =>
      var weight := Whole(Bal(books, staker, OCN));
      && weight >= 1
      && p.kernelValue(block.header.previous, staker, Whole(block.header.timestamp)) < block.header.target * weight
  }

  /** The reward of a negative height, which only an unchecked first block can have, is that of height 0. */
  function Subsidy(block: ChainBlock): int {
    var reward := RewardAt(if block.header.index < 0 then 0 else block.header.index);
    if block.staker.Some? then RoundDiv(reward, 10) else reward
  }

  function CoinbaseSum(txs: seq<Tx>): int {
    if txs == [] then 0 else (if txs[0].body.sender == Network then txs[0].body.amount else 0) + CoinbaseSum(txs[1..])
  }

  function Fees(txs: seq<Tx>): int {
    if txs == [] then 0 else (if txs[0].body.sender == Network then 0 else txs[0].body.fee) + Fees(txs[1..])
  }

  predicate RewardOk(block: ChainBlock) {
    && (exists i :: 0 <= i < |block.txs| && block.txs[i].body.sender == Network)
    && -COINBASE_TOLERANCE <= CoinbaseSum(block.txs) - (Subsidy(block) + Fees(block.txs)) <= COINBASE_TOLERANCE
  }

  /** A signed transaction is honoured once: not twice in a block, nor again after an earlier block. */
  predicate NoRepeats(txs: seq<Tx>) {
    forall i, j :: 0 <= i < j < |txs| && txs[i].body.sender != Network ==> txs[i].body != txs[j].body
  }

  predicate Confirmed(before: seq<ChainBlock>, body: TxBody) {
    exists j :: 0 <= j < |before| && Contains(before[j].txs, body)
  }

  predicate Contains(txs: seq<Tx>, body: TxBody) {
    exists k :: 0 <= k < |txs| && txs[k].body == body
  }

  predicate NoReplays(before: seq<ChainBlock>, txs: seq<Tx>) {
    forall i :: 0 <= i < |txs| && txs[i].body.sender != Network ==> !Confirmed(before, txs[i].body)
  }

  predicate AllTxValid(txs: seq<Tx>) {
    forall i :: 0 <= i < |txs| ==> TxValid(txs[i])
  }

  predicate OpsChecked(books: Books, block: ChainBlock) {
    && ((exists i :: 0 <= i < |block.txs| && block.txs[i].body.op.Some?) ==> block.header.index >= ACTIVATION_HEIGHT)
    && OpsPass(books, block.txs)
  }

  /** The checks both validators make before they look at ops and signatures. */
  predicate Extends(p: Primitives, now: int, before: seq<ChainBlock>, books: Books, block: ChainBlock)
    requires before != []
  {
    var tip := before[|before| - 1];
    && block.header.previous == tip.Hash()
    && block.header.index == tip.header.index + 1
    && TimestampOk(now, before, block.header.timestamp)
    && ProducerOk(p, books, block)
    && block.header.merkleRoot == Merkle.MerkleRoot(block.txs)
    && RewardOk(block)
    && NoRepeats(block.txs) && NoReplays(before, block.txs)
  }

  /** Validation answers yes, with the books it computed, or no, or raises: the second pass over a block's
      transactions is not guarded against a refused swap. */
  datatype Verdict = Valid(books: Books) | Invalid | Raises

  function JudgeBlock(p: Primitives, now: int, before: seq<ChainBlock>, books: Books, block: ChainBlock): Verdict
    requires before != []
  {
    if !Extends(p, now, before, books, block) || !OpsChecked(books, block) then Invalid
    else
      match ApplyAll(books, block.txs)
      case Stopped(_) => Raises
      case Done(next) => if AllTxValid(block.txs) then Valid(next) else Invalid
  }

  function Init(chain: seq<ChainBlock>): seq<ChainBlock>
    requires chain != []
  {
    chain[..|chain| - 1]
  }

  function Tip(chain: seq<ChainBlock>): ChainBlock
    requires chain != []
  {
    chain[|chain| - 1]
  }

  /** `is_chain_valid`: the first block is trusted but for its missing parent. */
  function Judge(p: Primitives, now: int, chain: seq<ChainBlock>): Verdict
    decreases |chain|
  {
    if chain == [] || chain[0].header.previous != NoBlock then Invalid
    else if |chain| == 1 then
      match ApplyAll(EMPTY_BOOKS, chain[0].txs)
      case Stopped(_) => Raises
      case Done(next) => Valid(next)
    else
      match Judge(p, now, Init(chain))
      case Valid(books) => JudgeBlock(p, now, Init(chain), books, Tip(chain))
      case other => other
  }

  /** The balance index computed from nothing. */
  function Replay(chain: seq<ChainBlock>): Outcome
    decreases |chain|
  {
    if chain == [] then Done(EMPTY_BOOKS)
    else
      match Replay(Init(chain))
      case Stopped(books) => Stopped(books)
      case Done(books) => ApplyAll(books, Tip(chain).txs)
  }

  lemma InitOf(chain: seq<ChainBlock>, block: ChainBlock)
    ensures Init(chain + [block]) == chain && Tip(chain + [block]) == block
  {
  }

  lemma JudgeLast(p: Primitives, now: int, chain: seq<ChainBlock>)
    requires |chain| > 1 && Judge(p, now, Init(chain)).Valid?
    ensures Judge(p, now, chain) == JudgeBlock(p, now, Init(chain), Judge(p, now, Init(chain)).books, Tip(chain))
  {
    assert Init(chain)[0] == chain[0];
  }

  /** Appending a block to a valid chain is judged by that block alone. */
  lemma JudgeAppend(p: Primitives, now: int, chain: seq<ChainBlock>, block: ChainBlock)
    requires Judge(p, now, chain).Valid?
    ensures chain != []
    ensures Judge(p, now, chain + [block]) == JudgeBlock(p, now, chain, Judge(p, now, chain).books, block)
  {
    InitOf(chain, block);
    JudgeLast(p, now, chain + [block]);
  }

  /** A verdict on a prefix that is not Valid is the verdict on the whole chain. */
  lemma {:induction false} JudgeStops(p: Primitives, now: int, chain: seq<ChainBlock>, i: nat)
    requires 0 < i <= |chain| && !Judge(p, now, chain[..i]).Valid?
    ensures Judge(p, now, chain) == Judge(p, now, chain[..i])
    decreases |chain|
  {
    if i < |chain| {
      assert Init(chain)[..i] == chain[..i];
      JudgeStops(p, now, Init(chain), i);
      assert chain[..i][0] == chain[0] == Init(chain)[0];
      assert i >= 1 && |chain| > 1;
    } else {
      assert chain[..i] == chain;
    }
  }

  lemma JudgePrefix(p: Primitives, now: int, chain: seq<ChainBlock>, i: nat)
    requires 0 < i <= |chain| && Judge(p, now, chain).Valid?
    ensures Judge(p, now, chain[..i]).Valid?
  {
    if !Judge(p, now, chain[..i]).Valid? {
      JudgeStops(p, now, chain, i);
    }
  }

  /** Validation from scratch computes the same books as replaying every transaction. */
  lemma {:induction false} JudgeReplays(p: Primitives, now: int, chain: seq<ChainBlock>)
    requires Judge(p, now, chain).Valid?
    ensures Replay(chain) == Done(Judge(p, now, chain).books)
    decreases |chain|
  {
    if |chain| > 1 {
      JudgeReplays(p, now, Init(chain));
    } else {
      assert Init(chain) == [];
      assert Replay(Init(chain)) == Done(EMPTY_BOOKS);
    }
  }

  /** The only use of the clock is the limit on future timestamps, so a valid chain stays valid. */
  lemma {:induction false} ValidLater(p: Primitives, now: int, later: int, chain: seq<ChainBlock>)
    requires now <= later && Judge(p, now, chain).Valid?
    ensures Judge(p, later, chain) == Judge(p, now, chain)
    decreases |chain|
  {
    if |chain| > 1 {
      ValidLater(p, now, later, Init(chain));
    }
  }
}
