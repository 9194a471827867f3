/** The node's chain object.  Every method is proved against the function of ChainNode or ChainRules that the
    theorems are about. */
module BlockchainObject {
  import opened Wrappers
  import opened LedgerTypes
  import opened Ledger
  import opened ChainRules
  import opened ChainNode

  class Blockchain {
    var chain: seq<ChainBlock>
    var mempool: seq<Tx>
    var balances: map<Key, int>
    var assetSupply: map<Asset, int>
    var currentTarget: int
    var posTarget: int
    var bftFinalized: map<nat, BlockHash>

    ghost function State(): NodeState
      reads this
    {
      NodeState(chain, Books(balances, assetSupply), mempool, currentTarget, posTarget, bftFinalized)
    }

    constructor ()
      ensures State() == NewNode()
    {
      chain := [GENESIS];
      mempool := [];
      balances := map[];
      assetSupply := map[];
      currentTarget := INITIAL_TARGET;
      posTarget := POS_INITIAL_TARGET;
      bftFinalized := map[];
      new;
      var ok := RebuildBalanceIndex();
      GenesisReplay();
    }

    lemma GenesisReplay()
      ensures Replay([GENESIS]) == Done(NewNode().books)
    {
      var p := Primitives(_ => 0, (_, _, _) => 0, (_, t) => t, (_, t) => t);
      NewNodeInSync(p, 0);
    }

    /** Applies transactions to the index in place; false when a swap was refused on the way. */
    method ApplyTransactions(txs: seq<Tx>) returns (ok: bool)
      modifies this`balances, this`assetSupply
      ensures ok <==> ApplyAll(old(State().books), txs).Done?
      ensures State().books == ApplyAll(old(State().books), txs).books
    {
      var i := 0;
      while i < |txs|
        invariant 0 <= i <= |txs|
        invariant ApplyAll(old(State().books), txs) == ApplyAll(State().books, txs[i..])
      {
        var r := Apply(Books(balances, assetSupply), txs[i].body);
        if r.Slippage? {
          return false;
        }
        assert txs[i..][1..] == txs[i + 1..];
        balances, assetSupply := r.books.balances, r.books.supply;
        i := i + 1;
      }
      return true;
    }

    /** Recomputes the index from the whole chain. */
    method RebuildBalanceIndex() returns (ok: bool)
      modifies this`balances, this`assetSupply
      ensures ok <==> Replay(chain).Done?
      ensures ok ==> State().books == Replay(chain).books
    {
      balances, assetSupply := map[], map[];
      var i := 0;
      while i < |chain|
        invariant 0 <= i <= |chain| && chain == old(chain)
        invariant Replay(chain[..i]) == Done(State().books)
      {
        ReplayNext(chain, i);
        ok := ApplyTransactions(chain[i].txs);
        if !ok {
          return false;
        }
        i := i + 1;
      }
      assert chain[..i] == chain;
      return true;
    }

    /** Checks the ops of a block on a scratch copy of the given books. */
    static method CheckOps(books: Books, block: ChainBlock) returns (ok: bool)
      ensures ok == OpsChecked(books, block)
    {
      if (exists i :: 0 <= i < |block.txs| && block.txs[i].body.op.Some?) && block.header.index < ACTIVATION_HEIGHT {
        return false;
      }
      var scratch := books;
      var txs := block.txs;
      var i := 0;
      while i < |txs|
        invariant 0 <= i <= |txs|
        invariant OpsPass(books, txs) == OpsPass(scratch, txs[i..])
      {
        assert txs[i..][1..] == txs[i + 1..];
        if txs[i].body.op.Some? {
          if !OpValid(txs[i].body) {
            return false;
          }
          var r := Apply(scratch, txs[i].body);
          if r.Slippage? || !NoneNegative(r.books, r.debited) {
            return false;
          }
          scratch := r.books;
        }
        i := i + 1;
      }
      return true;
    }

    method AcceptBlock(p: Primitives, now: int, block: ChainBlock) returns (result: Result)
      requires chain != []
      modifies this
      ensures (State(), result) == Accept(p, now, old(State()), block)
      ensures chain != []
    {
      var books := Books(balances, assetSupply);
      if !Extends(p, now, chain, books, block) {
        return Refused;
      }
      if block.header.target != (if block.staker.Some? then posTarget else currentTarget) || !AllTxValid(block.txs) {
        return Refused;
      }
      var checked := CheckOps(books, block);
      if !checked {
        return Refused;
      }
      chain := chain + [block];
      var applied := ApplyTransactions(block.txs);
      if !applied {
        return RaisedAfterAppend;
      }
      mempool := Unmined(mempool, block.txs);
      if block.staker.Some? {
        posTarget := p.nextPos(chain, posTarget);
      } else {
        currentTarget := p.nextPow(chain, currentTarget);
      }
      return Accepted;
    }

    /** The books of a chain as `get_balance` replays them; the chain must replay without a refused swap. */
    static method BooksOf(prefix: seq<ChainBlock>) returns (books: Books)
      requires Replay(prefix).Done?
      ensures books == Replay(prefix).books
    {
      books := EMPTY_BOOKS;
      var i := 0;
      while i < |prefix|
        invariant 0 <= i <= |prefix| && Replay(prefix[..i]) == Done(books)
      {
        ReplayNext(prefix, i);
        books := ApplyAll(books, prefix[i].txs).books;
        i := i + 1;
      }
      assert prefix[..i] == prefix;
    }

    /** One turn of the validation loop: the stake weight comes from replaying the prefix again. */
    static method JudgeNext(p: Primitives, now: int, candidate: seq<ChainBlock>, i: nat, running: Books)
      returns (verdict: Verdict)
      requires 0 < i < |candidate| && Judge(p, now, candidate[..i]) == Valid(running)
      ensures verdict == Judge(p, now, candidate[..i + 1])
    {
      var before, block := candidate[..i], candidate[i];
      JudgeReplays(p, now, before);
      var replayed := BooksOf(before);
      verdict := JudgeOn(p, now, before, running, replayed, block);
      NextVerdict(p, now, candidate, i);
    }

    static method JudgeOn(p: Primitives, now: int, before: seq<ChainBlock>, running: Books, replayed: Books, block: ChainBlock)
      returns (verdict: Verdict)
      requires before != [] && replayed == running
      ensures verdict == JudgeBlock(p, now, before, running, block)
    {
      if !Extends(p, now, before, replayed, block) {
        return Invalid;
      }
      var checked := CheckOps(running, block);
      if !checked {
        return Invalid;
      }
      var applied := ApplyAll(running, block.txs);
      if applied.Stopped? {
        return Raises;
      }
      return if AllTxValid(block.txs) then Valid(applied.books) else Invalid;
    }

    /** Validates a candidate from scratch, never looking at this node's own index. */
    static method IsChainValid(p: Primitives, now: int, candidate: seq<ChainBlock>) returns (verdict: Verdict)
      ensures verdict == Judge(p, now, candidate)
    {
      if candidate == [] || candidate[0].header.previous != NoBlock {
        return Invalid;
      }
      var first := ApplyAll(EMPTY_BOOKS, candidate[0].txs);
      FirstBlock(p, now, candidate);
      if first.Stopped? {
        JudgeStops(p, now, candidate, 1);
        return Raises;
      }
      var running := first.books;
      var i := 1;
      while i < |candidate|
        invariant 1 <= i <= |candidate| && Judge(p, now, candidate[..i]) == Valid(running)
      {
        verdict := JudgeNext(p, now, candidate, i, running);
        if !verdict.Valid? {
          JudgeStops(p, now, candidate, i + 1);
          return verdict;
        }
        running := verdict.books;
        i := i + 1;
      }
      assert candidate[..i] == candidate;
      return Valid(running);
    }

    method DivergesFromCheckpoint(candidate: seq<ChainBlock>) returns (diverges: bool)
      requires chain != []
      ensures diverges == DivergesBeforeCheckpoint(chain, candidate)
    {
      var checkpoint := CheckpointIndex(chain);
      if |candidate| <= checkpoint {
        return true;
      }
      var i := 0;
      while i < checkpoint + 1
        invariant 0 <= i <= checkpoint + 1
        invariant forall k :: 0 <= k < i ==> candidate[k].Hash() == chain[k].Hash()
      {
        if candidate[i].Hash() != chain[i].Hash() {
          return true;
        }
        i := i + 1;
      }
      return false;
    }

    method MarkBftFinalized(index: int, hash: BlockHash) returns (marked: bool)
      modifies this`bftFinalized
      ensures (State(), marked) == Mark(old(State()), index, hash)
    {
      if 0 <= index < |chain| && chain[index].Hash() == hash {
        bftFinalized := bftFinalized[index := hash];
        return true;
      }
      return false;
    }

    method ConflictsWithBftFinality(candidate: seq<ChainBlock>) returns (conflicts: bool)
      ensures conflicts == ConflictsWithFinality(bftFinalized, candidate)
    {
      var left := bftFinalized.Keys;
      while left != {}
        invariant left <= bftFinalized.Keys
        invariant forall k :: k in bftFinalized && k !in left ==> k < |candidate| && candidate[k].Hash() == bftFinalized[k]
        decreases |left|
      {
        var index :| index in left;
        if index >= |candidate| || candidate[index].Hash() != bftFinalized[index] {
          return true;
        }
        left := left - {index};
      }
      return false;
    }

    /** The vetoes that come before the full validation. */
    method KeepsHistory(candidate: seq<ChainBlock>) returns (keeps: bool)
      requires chain != []
      ensures keeps <==> |candidate| > |chain| && !DivergesBeforeCheckpoint(chain, candidate)
                         && !ConflictsWithFinality(bftFinalized, candidate)
    {
      if |candidate| <= |chain| {
        return false;
      }
      var diverges := DivergesFromCheckpoint(candidate);
      if diverges {
        return false;
      }
      var conflicts := ConflictsWithBftFinality(candidate);
      return !conflicts;
    }

    method ReplaceChain(p: Primitives, now: int, candidate: seq<ChainBlock>) returns (choice: Choice)
      requires chain != []
      modifies this
      ensures (State(), choice) == Adopt(p, now, old(State()), candidate)
      ensures chain != []
    {
      var keeps := KeepsHistory(candidate);
      if !keeps {
        return Kept;
      }
      var verdict := IsChainValid(p, now, candidate);
      if verdict.Invalid? {
        return Kept;
      }
      if verdict.Raises? {
        return RaisedInValidation;
      }
      JudgeReplays(p, now, candidate);
      chain := candidate;
      var ok := RebuildBalanceIndex();
      currentTarget := LastTarget(candidate, false, currentTarget);
      posTarget := LastTarget(candidate, true, posTarget);
      mempool := [];
      return Adopted;
    }
  }

  lemma {:induction false} ReplayStops(chain: seq<ChainBlock>, i: nat)
    requires i <= |chain| && Replay(chain[..i]).Stopped?
    ensures Replay(chain).Stopped?
    decreases |chain|
  {
    if i < |chain| {
      assert Init(chain)[..i] == chain[..i];
      ReplayStops(Init(chain), i);
    } else {
      assert chain[..i] == chain;
    }
  }

  lemma ReplayNext(chain: seq<ChainBlock>, i: nat)
    requires i < |chain| && Replay(chain[..i]).Done?
    ensures Replay(chain[..i + 1]) == ApplyAll(Replay(chain[..i]).books, chain[i].txs)
    ensures Replay(chain[..i + 1]).Stopped? ==> Replay(chain).Stopped?
  {
    InitOf(chain[..i], chain[i]);
    assert chain[..i + 1] == chain[..i] + [chain[i]];
    if Replay(chain[..i + 1]).Stopped? {
      ReplayStops(chain, i + 1);
    }
  }

  /** The verdict on the next prefix is the verdict on its last block. */
  lemma NextVerdict(p: Primitives, now: int, candidate: seq<ChainBlock>, i: nat)
    requires 0 < i < |candidate| && Judge(p, now, candidate[..i]).Valid?
    ensures Judge(p, now, candidate[..i + 1])
      == JudgeBlock(p, now, candidate[..i], Judge(p, now, candidate[..i]).books, candidate[i])
  {
    var longer := candidate[..i + 1];
    assert Init(longer) == candidate[..i] && Tip(longer) == candidate[i];
    JudgeLast(p, now, longer);
  }

  lemma FirstBlock(p: Primitives, now: int, candidate: seq<ChainBlock>)
    requires candidate != [] && candidate[0].header.previous == NoBlock
    ensures Judge(p, now, candidate[..1])
      == match ApplyAll(EMPTY_BOOKS, candidate[0].txs) case Stopped(_) => Raises case Done(next) => Valid(next)
  {
    assert candidate[..1] == [candidate[0]];
  }
}
