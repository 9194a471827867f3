/** What a kept hash says about the block: its transactions, up to coinbases that the Merkle tree repeats. */
module KeptBlocks {
  import opened Wrappers
  import opened LedgerTypes
  import opened Ledger
  import opened ChainRules
  import opened ChainNode
  import opened ChainRuns
  import Merkle

  /** The second list begins with the first, and goes on with coinbases that already stand in the first. */
  ghost predicate Begins(a: seq<Tx>, b: seq<Tx>) {
    && Merkle.Bodies(a) <= Merkle.Bodies(b)
    && forall k :: |a| <= k < |b| ==> b[k].body.sender == Network && b[k].body in Merkle.Bodies(a)
  }

  ghost predicate SameUpToRepeats(a: ChainBlock, b: ChainBlock) {
    a.header == b.header && (Begins(a.txs, b.txs) || Begins(b.txs, a.txs))
  }

  lemma SameRootBegins(a: seq<Tx>, b: seq<Tx>)
    requires Merkle.MerkleRoot(a) == Merkle.MerkleRoot(b) && |a| <= |b| && NoRepeats(b)
    ensures Begins(a, b)
  {
    Merkle.SameRootRepeats(a, b);
    var x, y := Merkle.Bodies(a), Merkle.Bodies(b);
    forall k | |a| <= k < |b| ensures b[k].body.sender == Network && b[k].body in x {
      assert y[k] in y;
      var j :| 0 <= j < |x| && x[j] == y[k];
      assert y[j] == x[j] && b[j].body == b[k].body;
    }
  }

  lemma RootChecked(p: Primitives, now: int, chain: seq<ChainBlock>, i: nat)
    requires Judge(p, now, chain).Valid? && 0 < i < |chain|
    ensures chain[i].header.merkleRoot == Merkle.MerkleRoot(chain[i].txs) && NoRepeats(chain[i].txs)
  {
    BlockExtends(p, now, chain, i);
  }

  lemma GenesisKept(a: ChainBlock, b: ChainBlock)
    requires a.Hash() == GENESIS.Hash() && b.Hash() == GENESIS.Hash() && WellMade(a) && WellMade(b)
    ensures SameUpToRepeats(a, b)
  {
    GenesisTransactions(a);
    GenesisTransactions(b);
  }

  /** Blocks of two valid chains with one hash carry the same transactions up to repeated coinbases. */
  lemma SameHashSameBlock(p: Primitives, limit: int, xs: seq<ChainBlock>, ys: seq<ChainBlock>, i: nat)
    requires Judge(p, limit, xs).Valid? && Judge(p, limit, ys).Valid? && Premined(xs) && Premined(ys)
    requires i < |xs| && i < |ys| && xs[i].Hash() == ys[i].Hash()
    ensures SameUpToRepeats(xs[i], ys[i])
  {
    if i == 0 {
      GenesisKept(xs[0], ys[0]);
    } else {
      RootChecked(p, limit, xs, i);
      RootChecked(p, limit, ys, i);
      if |xs[i].txs| <= |ys[i].txs| {
        SameRootBegins(xs[i].txs, ys[i].txs);
      } else {
        SameRootBegins(ys[i].txs, xs[i].txs);
      }
    }
  }

  /** Over every run that leaves the node in sync, the blocks at or below the checkpoint keep their transactions, up
      to repeated coinbases. */
  lemma HistoryKeepsTransactions(p: Primitives, limit: int, n: NodeState, events: seq<Event>, i: nat)
    requires n.chain != [] && InSync(p, limit, n) && Premined(n.chain) && FinalizedHeld(n)
    requires forall k :: 0 <= k < |events| ==> By(limit, events[k]) && Constructed(events[k])
    requires !DamagedAfter(p, n, events, false) && i <= CheckpointIndex(n.chain) && i < |n.chain|
    ensures i < |After(p, n, events).chain| && SameUpToRepeats(n.chain[i], After(p, n, events).chain[i])
  {
    HistoryIsPermanent(p, n, events);
    RunInSyncIff(p, limit, n, events);
    SupplyOfValidChain(p, limit, n.chain);
    AssetsAddUp(p, n, events);
    SameHashSameBlock(p, limit, n.chain, After(p, n, events).chain, i);
  }

  // --- When a repeated coinbase goes unnoticed ---

  function WithLastRepeated(block: ChainBlock): ChainBlock
    requires block.txs != []
  {
    block.(txs := block.txs + [block.txs[|block.txs| - 1]])
  }

  lemma {:induction false} SumsAppend(txs: seq<Tx>, tx: Tx)
    ensures CoinbaseSum(txs + [tx]) == CoinbaseSum(txs) + if tx.body.sender == Network then tx.body.amount else 0
    ensures Fees(txs + [tx]) == Fees(txs) + if tx.body.sender == Network then 0 else tx.body.fee
  {
    if txs == [] {
      assert [tx][1..] == [];
    } else {
      assert (txs + [tx])[1..] == txs[1..] + [tx];
      SumsAppend(txs[1..], tx);
    }
  }

  lemma RepeatFresh(before: seq<ChainBlock>, txs: seq<Tx>, tx: Tx)
    requires NoRepeats(txs) && NoReplays(before, txs) && tx in txs
    ensures NoRepeats(txs + [tx]) <==> tx.body.sender == Network
    ensures NoReplays(before, txs + [tx])
  {
    var all := txs + [tx];
    var k :| 0 <= k < |txs| && txs[k] == tx;
    assert all[k].body == all[|txs|].body;
  }

  /** Repeating the last of an odd number of three or more transactions keeps the hash; the block still meets the
      rules if and only if that transaction is a coinbase whose amount stays within the reward tolerance. */
  lemma RepeatUnnoticedIff(p: Primitives, now: int, before: seq<ChainBlock>, books: Books, block: ChainBlock)
    requires before != [] && Extends(p, now, before, books, block) && |block.txs| >= 3 && |block.txs| % 2 == 1
    ensures WithLastRepeated(block).Hash() == block.Hash()
    ensures Extends(p, now, before, books, WithLastRepeated(block)) <==>
      (var last := block.txs[|block.txs| - 1].body;
       && last.sender == Network
       && -COINBASE_TOLERANCE <= CoinbaseSum(block.txs) + last.amount - (Subsidy(block) + Fees(block.txs)) <= COINBASE_TOLERANCE)
  {
    var last := block.txs[|block.txs| - 1];
    Merkle.RepeatedLastKeepsRoot(block.txs);
    RepeatFresh(before, block.txs, last);
    RepeatReward(block);
    RepeatExtendsIff(p, now, before, books, block, WithLastRepeated(block));
  }

  lemma RepeatReward(block: ChainBlock)
    requires RewardOk(block) && block.txs != []
    ensures var last := block.txs[|block.txs| - 1].body;
      last.sender == Network ==>
        (RewardOk(WithLastRepeated(block)) <==>
          -COINBASE_TOLERANCE <= CoinbaseSum(block.txs) + last.amount - (Subsidy(block) + Fees(block.txs)) <= COINBASE_TOLERANCE)
  {
    var last, longer := block.txs[|block.txs| - 1], WithLastRepeated(block);
    SumsAppend(block.txs, last);
    assert Subsidy(longer) == Subsidy(block);
    CoinbaseStays(block.txs, last);
  }

  /** The checks that the transactions of a block enter only through its root, its sums and its repeats. */
  lemma RepeatExtendsIff(p: Primitives, now: int, before: seq<ChainBlock>, books: Books, block: ChainBlock, longer: ChainBlock)
    requires before != [] && Extends(p, now, before, books, block)
    requires longer.header == block.header && longer.staker == block.staker
    requires Merkle.MerkleRoot(longer.txs) == Merkle.MerkleRoot(block.txs)
    ensures Extends(p, now, before, books, longer) <==>
      (RewardOk(longer) && NoRepeats(longer.txs) && NoReplays(before, longer.txs))
  {
  }

  lemma CoinbaseStays(txs: seq<Tx>, tx: Tx)
    requires exists i :: 0 <= i < |txs| && txs[i].body.sender == Network
    ensures exists i :: 0 <= i < |txs + [tx]| && (txs + [tx])[i].body.sender == Network
  {
    var i :| 0 <= i < |txs| && txs[i].body.sender == Network;
    assert (txs + [tx])[i] == txs[i];
  }
}
