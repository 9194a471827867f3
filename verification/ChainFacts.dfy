/** What holds of every valid chain and every accepted block: who signed, who pays, who may produce.  The statements
    name none of the functions that check it. */
module ChainFacts {
  import opened Wrappers
  import opened LedgerTypes
  import opened Ledger
  import opened LedgerEffects
  import opened ChainRules
  import opened ChainNode
  import opened BlockRules
  import opened FixedPoint
  import BT = BlockTemplate

  // --- Each block of a valid chain ---

  /** Every block of a valid chain but the first holds on the replay of the earlier ones. */
  lemma BlockOfValid(p: Primitives, now: int, chain: seq<ChainBlock>, i: nat)
    requires Judge(p, now, chain).Valid? && 0 < i < |chain|
    ensures Replay(chain[..i]).Done? && Replay(chain[..i + 1]).Done?
    ensures BlockHolds(p, now, chain[..i], Replay(chain[..i]).books, chain[i], Replay(chain[..i + 1]).books)
  {
    BlockOfChain(p, now, chain, i);
    JudgedIsReplayed(p, now, chain[..i]);
    JudgedIsReplayed(p, now, chain[..i + 1]);
  }

  lemma JudgedIsReplayed(p: Primitives, now: int, chain: seq<ChainBlock>)
    requires Judged(p, now, chain).Some?
    ensures Replay(chain) == Done(Judged(p, now, chain).value)
  {
    JudgeReplays(p, now, chain);
  }

  /** An accepted block holds on the node's own books. */
  lemma BlockAccepted(p: Primitives, now: int, n: NodeState, block: ChainBlock)
    requires n.chain != [] && Accept(p, now, n, block).1 == Accepted
    ensures BlockHolds(p, now, n.chain, n.books, block, Accept(p, now, n, block).0.books)
  {
    AcceptExactly(p, now, n, block);
  }

  // --- Signatures ---

  /** Every transaction but a coinbase is signed by the user who sends it, who pays at least 10_000 millionths. */
  ghost predicate Authorised(txs: seq<Tx>) {
    forall tx :: tx in txs && tx.body.sender != Network ==>
      tx.signed && tx.body.sender.User? && tx.body.fee >= 10_000 && tx.body.amount >= 0
  }

  lemma ValidChainAuthorised(p: Primitives, now: int, chain: seq<ChainBlock>, i: nat)
    requires Judge(p, now, chain).Valid? && 0 < i < |chain|
    ensures Authorised(chain[i].txs)
  {
    BlockOfValid(p, now, chain, i);
  }

  lemma AcceptedAuthorised(p: Primitives, now: int, n: NodeState, block: ChainBlock)
    requires n.chain != [] && Accept(p, now, n, block).1 == Accepted
    ensures Authorised(block.txs)
  {
    BlockAccepted(p, now, n, block);
  }

  // --- Nobody's money moves without their signature ---

  /** The block has no transaction signed by u, and no coinbase that pays u. */
  ghost predicate LeftAlone(txs: seq<Tx>, u: Addr) {
    forall tx :: tx in txs ==>
      !(tx.signed && tx.body.sender == u) && !(tx.body.sender == Network && tx.body.recipient == u)
  }

  /** The transaction is someone else's, and no coinbase that pays u. */
  ghost predicate SomeoneElses(t: TxBody, u: Addr) {
    && u.User? && t.sender != u && OpRules(t)
    && if t.sender == Network then t.recipient != u && t.op == None else t.amount >= 0
  }

  lemma OthersPay(b: Books, t: TxBody, u: Addr, asset: Asset)
    requires SomeoneElses(t, u) && (t.op.None? || t.op.value.TransferAsset?)
    ensures Apply(b, t).Applied? && Bal(Apply(b, t).books, u, asset) >= Bal(b, u, asset)
  {
    PaymentEffect(b, t);
    var moved := if t.op.None? then Plain(0) else t.op.value.asset;
    assert Bal(Apply(b, t).books, u, asset) == Bal(b, u, asset) + PaymentMoves((u, asset), t, moved);
  }

  lemma OthersStake(b: Books, t: TxBody, u: Addr, asset: Asset)
    requires SomeoneElses(t, u) && (t.op == Some(StakeDeposit) || t.op == Some(StakeWithdraw))
    ensures Apply(b, t).Applied? && Bal(Apply(b, t).books, u, asset) >= Bal(b, u, asset)
  {
    if t.op == Some(StakeDeposit) {
      var minted := DepositEffect(b, t);
      assert Bal(Apply(b, t).books, u, asset) == Bal(b, u, asset) + DepositMoves((u, asset), t, minted);
    } else {
      var redeemed := WithdrawEffect(b, t);
      assert Bal(Apply(b, t).books, u, asset) == Bal(b, u, asset) + WithdrawMoves((u, asset), t, redeemed);
    }
  }

  lemma OthersProvide(b: Books, t: TxBody, u: Addr, asset: Asset)
    requires SomeoneElses(t, u) && t.op.Some? && (t.op.value.AddLiquidity? || t.op.value.RemoveLiquidity?)
    ensures Apply(b, t).Applied? && Bal(Apply(b, t).books, u, asset) >= Bal(b, u, asset)
  {
    match t.op.value
    case AddLiquidity(p, da, db) =>
      var minted := AddEffect(b, t, p, da, db);
      assert Bal(Apply(b, t).books, u, asset) == Bal(b, u, asset) + AddMoves((u, asset), t, p, da, db, minted);
    case RemoveLiquidity(p, shares) =>
      var outA, outB := RemoveEffect(b, t, p, shares);
      assert Bal(Apply(b, t).books, u, asset) == Bal(b, u, asset) + RemoveMoves((u, asset), t, p, shares, outA, outB);
  }

  lemma OthersSwap(b: Books, t: TxBody, u: Addr, asset: Asset)
    requires SomeoneElses(t, u) && t.op.Some? && t.op.value.Swap? && Apply(b, t).Applied?
    ensures Bal(Apply(b, t).books, u, asset) >= Bal(b, u, asset)
  {
    var op := t.op.value;
    var other, out := SwapEffect(b, t, op.pool, op.assetIn, op.amountIn, op.minOut);
    assert Bal(Apply(b, t).books, u, asset)
      == Bal(b, u, asset) + SwapMoves((u, asset), t, op.pool, op.assetIn, other, op.amountIn, out);
  }

  /** A transaction of someone else can only add to what u holds. */
  lemma OthersOnlyAdd(b: Books, t: TxBody, u: Addr, asset: Asset)
    requires SomeoneElses(t, u) && Apply(b, t).Applied?
    ensures Bal(Apply(b, t).books, u, asset) >= Bal(b, u, asset)
  {
    if t.op.None? || t.op.value.TransferAsset? {
      OthersPay(b, t, u, asset);
    } else if t.op.value.StakeDeposit? || t.op.value.StakeWithdraw? {
      OthersStake(b, t, u, asset);
    } else if t.op.value.Swap? {
      OthersSwap(b, t, u, asset);
    } else {
      OthersProvide(b, t, u, asset);
    }
  }

  ghost predicate OpsWellFormed(txs: seq<Tx>) {
    forall tx :: tx in txs ==> OpRules(tx.body)
  }

  lemma CheckedOps(txs: seq<Tx>, path: seq<Books>)
    requires Checked(txs, path)
    ensures OpsWellFormed(txs)
  {
    forall tx | tx in txs ensures OpRules(tx.body) {
      var i :| 0 <= i < |txs| && txs[i] == tx;
    }
  }

  lemma {:induction false} WalkOnlyAdds(txs: seq<Tx>, path: seq<Books>, u: Addr, asset: Asset)
    requires Walked(txs, path) && u.User? && LeftAlone(txs, u) && AllTxRules(txs) && OpsWellFormed(txs)
    ensures Bal(path[|txs|], u, asset) >= Bal(path[0], u, asset)
    decreases txs
  {
    if txs != [] {
      WalkedRest(txs, path);
      assert txs[0] in txs;
      assert TxRules(txs[0]) && OpRules(txs[0].body);
      OthersOnlyAdd(path[0], txs[0].body, u, asset);
      assert forall tx :: tx in txs[1..] ==> tx in txs;
      WalkOnlyAdds(txs[1..], path[1..], u, asset);
    }
  }

  lemma BlockOnlyAdds(p: Primitives, now: int, before: seq<ChainBlock>, books: Books, block: ChainBlock, after: Books,
                      u: Addr, asset: Asset)
    requires before != [] && BlockHolds(p, now, before, books, block, after) && u.User? && LeftAlone(block.txs, u)
    ensures Bal(after, u, asset) >= Bal(books, u, asset)
  {
    var scratch :| Checked(block.txs, scratch) && scratch[0] == books;
    CheckedOps(block.txs, scratch);
    var path :| Walked(block.txs, path) && path[0] == books && path[|block.txs|] == after;
    WalkOnlyAdds(block.txs, path, u, asset);
  }

  /** On a valid chain no user's holding of any asset falls in a block that has no transaction signed by that user;
      users that a coinbase pays are set apart, since a coinbase can be negative. */
  lemma NobodyRobbed(p: Primitives, now: int, chain: seq<ChainBlock>, i: nat, u: Addr, asset: Asset)
    requires Judge(p, now, chain).Valid? && 0 < i < |chain| && u.User? && LeftAlone(chain[i].txs, u)
    ensures Replay(chain[..i]).Done? && Replay(chain[..i + 1]).Done?
    ensures Bal(Replay(chain[..i + 1]).books, u, asset) >= Bal(Replay(chain[..i]).books, u, asset)
  {
    BlockOfValid(p, now, chain, i);
    BlockOnlyAdds(p, now, chain[..i], Replay(chain[..i]).books, chain[i], Replay(chain[..i + 1]).books, u, asset);
  }

  /** Nor in a block that a node accepts. */
  lemma NobodyRobbedByAccepted(p: Primitives, now: int, n: NodeState, block: ChainBlock, u: Addr, asset: Asset)
    requires n.chain != [] && Accept(p, now, n, block).1 == Accepted && u.User? && LeftAlone(block.txs, u)
    ensures Bal(Accept(p, now, n, block).0.books, u, asset) >= Bal(n.books, u, asset)
  {
    BlockAccepted(p, now, n, block);
    BlockOnlyAdds(p, now, n.chain, n.books, block, Accept(p, now, n, block).0.books, u, asset);
  }

  // --- The miner of a template ---

  function EveryFee(txs: seq<Tx>): seq<int> {
    seq(|txs|, i requires 0 <= i < |txs| => txs[i].body.fee)
  }

  lemma {:induction false} FeesAdded(txs: seq<Tx>)
    ensures BT.AllFees(txs) == Total(EveryFee(txs))
  {
    if txs != [] {
      FeesAdded(txs[1..]);
      assert EveryFee(txs)[1..] == EveryFee(txs[1..]);
    }
  }

  /** Books after a coinbase that pays the miner, and then transactions of others. */
  lemma CoinbaseThenOthers(txs: seq<Tx>, path: seq<Books>, miner: Addr)
    requires txs != [] && Walked(txs, path) && AllTxRules(txs) && OpsWellFormed(txs) && miner.User?
    requires txs[0].body.sender == Network && txs[0].body.op.None? && txs[0].body.recipient == miner
    requires LeftAlone(txs[1..], miner)
    ensures Bal(path[|txs|], miner, Plain(0)) >= Bal(path[0], miner, Plain(0)) + txs[0].body.amount
  {
    WalkedRest(txs, path);
    PaymentEffect(path[0], txs[0].body);
    assert Bal(path[1], miner, Plain(0))
      == Bal(path[0], miner, Plain(0)) + PaymentMoves((miner, Plain(0)), txs[0].body, Plain(0));
    assert forall tx :: tx in txs[1..] ==> tx in txs;
    WalkOnlyAdds(txs[1..], path[1..], miner, Plain(0));
  }

  /** When a template is accepted, its miner is richer by at least the reward of the height and all included fees,
      unless the miner signed an included transaction or is paid by a further coinbase. */
  lemma MinerIsPaid(p: Primitives, now: int, n: NodeState, miner: Addr, included: seq<Tx>, coinbaseTime: int,
                    timestamp: int, nonce: int)
    requires n.chain != [] && Tip(n.chain).header.index >= 0 && miner.User? && LeftAlone(included, miner)
    requires Accept(p, now, n, BT.Candidate(n, miner, included, coinbaseTime, timestamp, nonce)).1 == Accepted
    ensures var after := Accept(p, now, n, BT.Candidate(n, miner, included, coinbaseTime, timestamp, nonce)).0;
      Bal(after.books, miner, Plain(0)) >= Bal(n.books, miner, Plain(0))
        + RewardAt(Tip(n.chain).header.index + 1) + Total(EveryFee(included))
  {
    var block := BT.Candidate(n, miner, included, coinbaseTime, timestamp, nonce);
    FeesAdded(included);
    TemplateShape(n, miner, included, coinbaseTime, timestamp, nonce);
    CoinbasePays(p, now, n, block, miner);
  }

  lemma TemplateShape(n: NodeState, miner: Addr, included: seq<Tx>, coinbaseTime: int, timestamp: int, nonce: int)
    requires n.chain != [] && Tip(n.chain).header.index >= 0
    ensures var txs := BT.Candidate(n, miner, included, coinbaseTime, timestamp, nonce).txs;
      && txs != [] && txs[1..] == included
      && txs[0].body.sender == Network && txs[0].body.recipient == miner
      && txs[0].body.amount == RewardAt(Tip(n.chain).header.index + 1) + BT.AllFees(included)
  {
  }

  lemma CoinbasePays(p: Primitives, now: int, n: NodeState, block: ChainBlock, miner: Addr)
    requires n.chain != [] && Accept(p, now, n, block).1 == Accepted && miner.User? && block.txs != []
    requires block.txs[0].body.sender == Network && block.txs[0].body.recipient == miner
    requires LeftAlone(block.txs[1..], miner)
    ensures Bal(Accept(p, now, n, block).0.books, miner, Plain(0))
      >= Bal(n.books, miner, Plain(0)) + block.txs[0].body.amount
  {
    BlockAccepted(p, now, n, block);
    TemplatePath(p, now, n, block, Accept(p, now, n, block).0.books, miner);
  }

  lemma TemplatePath(p: Primitives, now: int, n: NodeState, block: ChainBlock, after: Books, miner: Addr)
    requires n.chain != [] && BlockHolds(p, now, n.chain, n.books, block, after) && miner.User? && block.txs != []
    requires block.txs[0].body.sender == Network && block.txs[0].body.recipient == miner
    requires LeftAlone(block.txs[1..], miner)
    ensures Bal(after, miner, Plain(0)) >= Bal(n.books, miner, Plain(0)) + block.txs[0].body.amount
  {
    var scratch :| Checked(block.txs, scratch) && scratch[0] == n.books;
    CheckedOps(block.txs, scratch);
    var path :| Walked(block.txs, path) && path[0] == n.books && path[|block.txs|] == after;
    assert block.txs[0] in block.txs && TxRules(block.txs[0]);
    CoinbaseThenOthers(block.txs, path, miner);
  }

  // --- Producers ---

  /** On a valid chain every block is produced with the work, or with the stake that replaying the earlier blocks gives
      its staker, that its target asks for. */
  lemma ValidChainProduced(p: Primitives, now: int, chain: seq<ChainBlock>, i: nat)
    requires Judge(p, now, chain).Valid? && 0 < i < |chain|
    ensures Replay(chain[..i]).Done? && Produced(p, Replay(chain[..i]).books, chain[i])
  {
    BlockOfValid(p, now, chain, i);
  }

  lemma AcceptedProduced(p: Primitives, now: int, n: NodeState, block: ChainBlock)
    requires n.chain != [] && Accept(p, now, n, block).1 == Accepted
    ensures Produced(p, n.books, block)
  {
    BlockAccepted(p, now, n, block);
  }

  /** Whoever holds less than one coin produces no staked block. */
  lemma NoStakeNoBlock(p: Primitives, now: int, n: NodeState, block: ChainBlock, staker: Addr)
    requires n.chain != [] && block.staker == Some(staker) && Bal(n.books, staker, Plain(0)) < 1_000_000
    ensures Accept(p, now, n, block).1 == Refused
  {
    AcceptExactly(p, now, n, block);
  }

  /** An unsigned payment is refused wherever it stands in a block. */
  lemma UnsignedRefused(p: Primitives, now: int, n: NodeState, block: ChainBlock, tx: Tx)
    requires n.chain != [] && tx in block.txs && tx.body.sender != Network && !tx.signed
    ensures Accept(p, now, n, block).1 == Refused
  {
    AcceptExactly(p, now, n, block);
  }
}
