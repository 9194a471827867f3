/** Whole runs of a node: any sequence of submitted blocks, competing chains and finality marks. */
module ChainRuns {
  import opened Wrappers
  import opened LedgerTypes
  import opened Rounding
  import opened Ledger
  import opened LedgerTotals
  import opened LedgerSolvency
  import opened BlockIndependence
  import opened FixedPoint
  import opened ChainRules
  import opened ChainNode
  import Merkle
  import MedianTime

  datatype Event =
    | Submit(block: ChainBlock, now: int)
    | Offer(candidate: seq<ChainBlock>, now: int)
    | Finalize(index: int, hash: BlockHash)

  function Handle(p: Primitives, n: NodeState, e: Event): (next: NodeState)
    requires n.chain != []
    ensures next.chain != []
  {
    match e
    case Submit(block, now) => Accept(p, now, n, block).0
    case Offer(candidate, now) => Adopt(p, now, n, candidate).0
    case Finalize(index, hash) => Mark(n, index, hash).0
  }

  function After(p: Primitives, n: NodeState, events: seq<Event>): (next: NodeState)
    requires n.chain != []
    ensures next.chain != []
    decreases events
  {
    if events == [] then n else After(p, Handle(p, n, events[0]), events[1..])
  }

  // --- History permanence ---

  lemma HistoryTransitive(a: NodeState, b: NodeState, c: NodeState)
    requires HistoryKept(a, b) && HistoryKept(b, c)
    ensures HistoryKept(a, c)
  {
    forall i | 0 <= i <= CheckpointIndex(a.chain) && i < |a.chain| ensures c.chain[i].Hash() == a.chain[i].Hash() {
      assert i <= CheckpointIndex(b.chain) && i < |b.chain|;
      assert b.chain[i].Hash() == a.chain[i].Hash();
    }
    forall i | i in a.finalized ensures i in c.finalized && c.finalized[i] == a.finalized[i] {
      assert i in b.finalized;
    }
  }

  /** From any moment of any run on: the chain never gets shorter, every block at or below the checkpoint keeps
      its hash, and every finalized block stays on the chain, whatever is submitted, offered or marked. */
  lemma {:induction false} HistoryIsPermanent(p: Primitives, n: NodeState, events: seq<Event>)
    requires n.chain != [] && FinalizedHeld(n)
    ensures HistoryKept(n, After(p, n, events)) && FinalizedHeld(After(p, n, events))
    decreases events
  {
    if events != [] {
      var next := Handle(p, n, events[0]);
      match events[0] {
        case Submit(block, now) => AcceptHistory(p, now, n, block);
        case Offer(candidate, now) => AdoptHistory(p, now, n, candidate);
        case Finalize(index, hash) => MarkHistory(n, index, hash);
      }
      HistoryIsPermanent(p, next, events[1..]);
      HistoryTransitive(n, next, After(p, next, events[1..]));
    }
  }

  // --- The index stays the replay of the chain ---

  predicate By(limit: int, e: Event) {
    match e
    case Submit(_, now) => now <= limit
    case Offer(_, now) => now <= limit
    case Finalize(_, _) => true
  }

  /** No submitted block raised after it had been appended. */
  predicate NoneRaised(p: Primitives, n: NodeState, events: seq<Event>)
    requires n.chain != []
    decreases events
  {
    events == [] ||
    (&& (events[0].Submit? ==> Accept(p, events[0].now, n, events[0].block).1 != RaisedAfterAppend)
     && NoneRaised(p, Handle(p, n, events[0]), events[1..]))
  }

  /** What a node can tell from its own results: a submitted block raised, and no chain was adopted since. */
  predicate Damaged(p: Primitives, n: NodeState, e: Event, before: bool)
    requires n.chain != []
  {
    match e
    case Submit(block, now) => before || Accept(p, now, n, block).1 == RaisedAfterAppend
    case Offer(candidate, now) => before && Adopt(p, now, n, candidate).1 != Adopted
    case Finalize(_, _) => before
  }

  predicate DamagedAfter(p: Primitives, n: NodeState, events: seq<Event>, before: bool)
    requires n.chain != []
    decreases events
  {
    if events == [] then before
    else DamagedAfter(p, Handle(p, n, events[0]), events[1..], Damaged(p, n, events[0], before))
  }

  ghost predicate SyncUnless(p: Primitives, limit: int, n: NodeState, damaged: bool) {
    if damaged then n.chain != [] && !Judge(p, limit, n.chain).Valid? else InSync(p, limit, n)
  }

  lemma SubmitSync(p: Primitives, limit: int, n: NodeState, block: ChainBlock, now: int)
    requires n.chain != [] && InSync(p, limit, n) && now <= limit
    ensures SyncUnless(p, limit, Accept(p, now, n, block).0, Accept(p, now, n, block).1 == RaisedAfterAppend)
  {
    assert Extends(p, now, n.chain, n.books, block) ==> Extends(p, limit, n.chain, n.books, block);
    JudgeAppend(p, limit, n.chain, block);
  }

  lemma InvalidGrows(p: Primitives, limit: int, chain: seq<ChainBlock>, block: ChainBlock)
    requires chain != [] && !Judge(p, limit, chain).Valid?
    ensures !Judge(p, limit, chain + [block]).Valid?
  {
    InitOf(chain, block);
  }

  lemma SubmitDamaged(p: Primitives, limit: int, n: NodeState, block: ChainBlock, now: int)
    requires n.chain != [] && !Judge(p, limit, n.chain).Valid?
    ensures !Judge(p, limit, Accept(p, now, n, block).0.chain).Valid?
  {
    InvalidGrows(p, limit, n.chain, block);
  }

  lemma OfferSync(p: Primitives, limit: int, n: NodeState, candidate: seq<ChainBlock>, now: int)
    requires n.chain != [] && now <= limit && Adopt(p, now, n, candidate).1 == Adopted
    ensures InSync(p, limit, Adopt(p, now, n, candidate).0)
  {
    ValidLater(p, now, limit, candidate);
  }

  lemma HandleSync(p: Primitives, limit: int, n: NodeState, e: Event, damaged: bool)
    requires n.chain != [] && SyncUnless(p, limit, n, damaged) && By(limit, e)
    ensures SyncUnless(p, limit, Handle(p, n, e), Damaged(p, n, e, damaged))
  {
    match e
    case Submit(block, now) =>
      if damaged {
        SubmitDamaged(p, limit, n, block, now);
      } else {
        SubmitSync(p, limit, n, block, now);
      }
    case Offer(candidate, now) =>
      if Adopt(p, now, n, candidate).1 == Adopted {
        OfferSync(p, limit, n, candidate, now);
      }
    case Finalize(_, _) =>
  }

  lemma {:induction false} RunSync(p: Primitives, limit: int, n: NodeState, events: seq<Event>, damaged: bool)
    requires n.chain != [] && SyncUnless(p, limit, n, damaged)
    requires forall i :: 0 <= i < |events| ==> By(limit, events[i])
    ensures SyncUnless(p, limit, After(p, n, events), DamagedAfter(p, n, events, damaged))
    decreases events
  {
    if events != [] {
      HandleSync(p, limit, n, events[0], damaged);
      RunSync(p, limit, Handle(p, n, events[0]), events[1..], Damaged(p, n, events[0], damaged));
    }
  }

  /** Over every run from a node in sync, the chain is valid and the index is its replay if and only if no
      submitted block raised after being appended, or a chain was adopted since the last one that did. */
  lemma RunInSyncIff(p: Primitives, limit: int, n: NodeState, events: seq<Event>)
    requires n.chain != [] && InSync(p, limit, n)
    requires forall i :: 0 <= i < |events| ==> By(limit, events[i])
    ensures InSync(p, limit, After(p, n, events)) <==> !DamagedAfter(p, n, events, false)
    ensures !DamagedAfter(p, n, events, false) ==> Replay(After(p, n, events).chain) == Done(After(p, n, events).books)
  {
    RunSync(p, limit, n, events, false);
    if !DamagedAfter(p, n, events, false) {
      JudgeReplays(p, limit, After(p, n, events).chain);
    }
  }

  // --- The genesis block ---

  /** A block object computes its Merkle root from its transactions when it is built. */
  predicate WellMade(block: ChainBlock) {
    block.header.merkleRoot == Merkle.MerkleRoot(block.txs)
  }

  predicate Premined(chain: seq<ChainBlock>) {
    chain != [] && chain[0].Hash() == GENESIS.Hash() && WellMade(chain[0])
  }

  /** The hash of the genesis block fixes its one transaction. */
  lemma GenesisTransactions(block: ChainBlock)
    requires block.Hash() == GENESIS.Hash() && WellMade(block)
    ensures |block.txs| == 1 && block.txs[0].body == PREMINE
  {
    var leaves := Merkle.Leaves(block.txs);
    Merkle.EmptyRoot(block.txs);
    Merkle.RootHeight(leaves, 0);
    assert leaves[0] == Leaf(block.txs[0].body);
  }

  lemma GenesisBooks(p: Primitives, now: int, block: ChainBlock)
    requires block.Hash() == GENESIS.Hash() && WellMade(block)
    ensures Judge(p, now, [block]).Valid?
    ensures var b := Judge(p, now, [block]).books;
      Balanced(b) && Solvent(b) && Sum(b, OCN) == PREMINE.amount
  {
    GenesisTransactions(block);
    var b := Apply(EMPTY_BOOKS, PREMINE).books;
    assert block.txs[1..] == [];
    assert ApplyAll(EMPTY_BOOKS, block.txs) == ApplyAll(b, []);
    EmptyBalanced();
    ApplyConserves(EMPTY_BOOKS, PREMINE);
    ConservesBalanced(EMPTY_BOOKS, b, PREMINE);
  }

  // --- Supply ---

  function Subsidies(chain: seq<ChainBlock>): int
    decreases |chain|
  {
    if |chain| <= 1 then 0 else Subsidies(Init(chain)) + Subsidy(Tip(chain))
  }

  lemma {:induction false} NewCoinsAreCoinbaseLessFees(txs: seq<Tx>)
    ensures NewCoinsOf(txs) == CoinbaseSum(txs) - Fees(txs)
  {
    if txs != [] {
      NewCoinsAreCoinbaseLessFees(txs[1..]);
    }
  }

  /** On every valid chain each asset other than OCN adds up to its recorded supply, and all OCN add up to the
      premine and the subsidies, to within one micro-unit a block. */
  lemma {:induction false} SupplyOfValidChain(p: Primitives, now: int, chain: seq<ChainBlock>)
    requires Premined(chain) && Judge(p, now, chain).Valid?
    ensures var b := Judge(p, now, chain).books;
      Balanced(b) && -(|chain| - 1) <= Sum(b, OCN) - PREMINE.amount - Subsidies(chain) <= |chain| - 1
    decreases |chain|
  {
    if |chain| == 1 {
      assert chain == [chain[0]];
      GenesisBooks(p, now, chain[0]);
    } else {
      var before := Judge(p, now, Init(chain)).books;
      SupplyOfValidChain(p, now, Init(chain));
      BlockConserves(before, Tip(chain).txs);
      NewCoinsAreCoinbaseLessFees(Tip(chain).txs);
    }
  }

  lemma TipIndex(p: Primitives, now: int, chain: seq<ChainBlock>)
    requires |chain| > 1 && Judge(p, now, chain).Valid?
    ensures Judge(p, now, Init(chain)).Valid? && Tip(chain).header.index == Tip(Init(chain)).header.index + 1
  {
  }

  lemma IndexAt(p: Primitives, now: int, chain: seq<ChainBlock>, k: nat)
    requires Judge(p, now, chain).Valid? && 0 < k < |chain|
    ensures chain[k].header.index == chain[k - 1].header.index + 1
  {
    JudgePrefix(p, now, chain, k + 1);
    TipIndex(p, now, chain[..k + 1]);
  }

  lemma {:induction false} CountingUp(chain: seq<ChainBlock>, i: nat)
    requires forall k :: 0 < k < |chain| ==> chain[k].header.index == chain[k - 1].header.index + 1
    requires i < |chain|
    ensures chain[i].header.index == chain[0].header.index + i
  {
    if i > 0 {
      CountingUp(chain, i - 1);
    }
  }

  /** Heights count up from the genesis block, so a subsidy depends on the position alone. */
  lemma IndexIsPosition(p: Primitives, now: int, chain: seq<ChainBlock>, i: nat)
    requires Premined(chain) && Judge(p, now, chain).Valid? && i < |chain|
    ensures chain[i].header.index == i
  {
    forall k | 0 < k < |chain| ensures chain[k].header.index == chain[k - 1].header.index + 1 {
      IndexAt(p, now, chain, k);
    }
    CountingUp(chain, i);
  }

  /** No more than a hundred coins and one micro-unit enter with each block. */
  lemma {:induction false} SubsidiesBounded(chain: seq<ChainBlock>)
    requires chain != []
    ensures 0 <= Subsidies(chain) <= (|chain| - 1) * (BASE_REWARD * MICRO)
    decreases |chain|
  {
    if |chain| > 1 {
      SubsidiesBounded(Init(chain));
      var height := if Tip(chain).header.index < 0 then 0 else Tip(chain).header.index;
      RewardBounds(height);
      RoundAtLeast(RewardAt(height), 10, 0);
      RoundAtMost(RewardAt(height), 10, BASE_REWARD * MICRO);
    }
  }

  // --- Replayed transactions ---

  /** Every block of a valid chain met the rules for extending the blocks before it. */
  lemma BlockExtends(p: Primitives, now: int, chain: seq<ChainBlock>, j: nat)
    requires Judge(p, now, chain).Valid? && 0 < j < |chain|
    ensures Judge(p, now, chain[..j]).Valid?
    ensures Extends(p, now, chain[..j], Judge(p, now, chain[..j]).books, chain[j])
  {
    var prefix := chain[..j + 1];
    JudgePrefix(p, now, chain, j + 1);
    assert Init(prefix) == chain[..j] && Tip(prefix) == chain[j];
    JudgePrefix(p, now, chain, j);
  }

  lemma BlockFresh(p: Primitives, now: int, chain: seq<ChainBlock>, j: nat)
    requires Judge(p, now, chain).Valid? && 0 < j < |chain|
    ensures NoReplays(chain[..j], chain[j].txs) && NoRepeats(chain[j].txs)
  {
    BlockExtends(p, now, chain, j);
  }

  lemma ConfirmedEarlier(chain: seq<ChainBlock>, i: nat, a: nat, j: nat)
    requires i < j < |chain| && a < |chain[i].txs|
    ensures Confirmed(chain[..j], chain[i].txs[a].body)
  {
    var before := chain[..j];
    assert before[i] == chain[i];
    assert Contains(before[i].txs, chain[i].txs[a].body);
  }

  /** A signed transaction is honoured once in the whole of a valid chain. */
  lemma SignedOnlyOnce(p: Primitives, now: int, chain: seq<ChainBlock>, i: nat, a: nat, j: nat, z: nat)
    requires Judge(p, now, chain).Valid? && i <= j < |chain| && 0 < j
    requires a < |chain[i].txs| && z < |chain[j].txs| && chain[i].txs[a].body == chain[j].txs[z].body
    requires chain[j].txs[z].body.sender != Network
    ensures i == j && a == z
  {
    if i < j {
      ConfirmedEarlier(chain, i, a, j);
    }
    BlockFresh(p, now, chain, j);
  }

  // --- Median time ---

  /** After each block of a chain, the median its successor must exceed. */
  function Medians(chain: seq<ChainBlock>): (r: seq<int>)
    ensures |r| == |chain|
    decreases |chain|
  {
    if chain == [] then [] else Medians(Init(chain)) + [MedianTime.Median(MedianTime.Recent(Times(chain)))]
  }

  lemma TipAboveMedian(p: Primitives, now: int, chain: seq<ChainBlock>)
    requires |chain| > 1 && Judge(p, now, chain).Valid?
    ensures Judge(p, now, Init(chain)).Valid?
    ensures Tip(chain).header.timestamp > MedianTime.Median(MedianTime.Recent(Times(Init(chain))))
  {
  }

  lemma TimesAppend(chain: seq<ChainBlock>)
    requires chain != []
    ensures Times(chain) == Times(Init(chain)) + [Tip(chain).header.timestamp]
  {
  }

  lemma MedianRises(chain: seq<ChainBlock>)
    requires |chain| > 1 && Tip(chain).header.timestamp > MedianTime.Median(MedianTime.Recent(Times(Init(chain))))
    ensures MedianTime.Median(MedianTime.Recent(Times(Init(chain)))) <= MedianTime.Median(MedianTime.Recent(Times(chain)))
  {
    TimesAppend(chain);
    MedianTime.MedianNeverFalls(Times(Init(chain)), Tip(chain).header.timestamp);
  }

  /** Every block but the first is later than the median before it. */
  ghost predicate AboveMedians(chain: seq<ChainBlock>)
    decreases |chain|
  {
    |chain| > 1 ==>
      && AboveMedians(Init(chain))
      && Tip(chain).header.timestamp > MedianTime.Median(MedianTime.Recent(Times(Init(chain))))
  }

  lemma {:induction false} ValidAboveMedians(p: Primitives, now: int, chain: seq<ChainBlock>)
    requires Judge(p, now, chain).Valid?
    ensures AboveMedians(chain)
    decreases |chain|
  {
    if |chain| > 1 {
      TipAboveMedian(p, now, chain);
      ValidAboveMedians(p, now, Init(chain));
    }
  }

  lemma {:induction false} MediansRise(chain: seq<ChainBlock>, i: nat, j: nat)
    requires AboveMedians(chain) && i <= j < |chain|
    ensures Medians(chain)[i] <= Medians(chain)[j]
    decreases |chain|
  {
    if i < j {
      var before := Init(chain);
      if j < |before| {
        MediansRise(before, i, j);
      } else {
        MediansRise(before, i, j - 1);
        MedianRises(chain);
      }
    }
  }

  /** Along every valid chain the median that the next block must exceed never goes back. */
  lemma MedianMonotone(p: Primitives, now: int, chain: seq<ChainBlock>, i: nat, j: nat)
    requires Judge(p, now, chain).Valid? && i <= j < |chain|
    ensures Medians(chain)[i] <= Medians(chain)[j]
  {
    ValidAboveMedians(p, now, chain);
    MediansRise(chain, i, j);
  }

  // --- Solvency ---

  predicate Orderly(txs: seq<Tx>) {
    Independent(txs) && NoClawback(txs)
  }

  predicate OrderlyFrom(chain: seq<ChainBlock>, first: nat) {
    forall i :: first <= i < |chain| ==> Orderly(chain[i].txs)
  }

  /** Validating orderly blocks never raises, and leaves every protected balance non-negative. */
  lemma OrderlyBlock(b: Books, txs: seq<Tx>)
    requires Solvent(b) && Balanced(b) && OpsPass(b, txs) && AllTxValid(txs) && Orderly(txs)
    ensures ApplyAll(b, txs).Done? && Solvent(ApplyAll(b, txs).books) && Balanced(ApplyAll(b, txs).books)
  {
    CheckingOpsIsSound(b, txs);
    NoClawbackCovers(b, txs);
  }

  lemma {:induction false} OrderlyChainSolvent(p: Primitives, now: int, chain: seq<ChainBlock>)
    requires Premined(chain) && Judge(p, now, chain).Valid? && OrderlyFrom(chain, 1)
    ensures Solvent(Judge(p, now, chain).books) && Balanced(Judge(p, now, chain).books)
    decreases |chain|
  {
    if |chain| == 1 {
      assert chain == [chain[0]];
      GenesisBooks(p, now, chain[0]);
    } else {
      assert OrderlyFrom(Init(chain), 1);
      OrderlyChainSolvent(p, now, Init(chain));
      OrderlyBlock(Judge(p, now, Init(chain)).books, Tip(chain).txs);
    }
  }

  /** What the source's own block constructor guarantees of an offered chain, and orderly blocks throughout. */
  predicate OrderlyEvent(e: Event) {
    match e
    case Submit(block, _) => Orderly(block.txs)
    case Offer(candidate, _) => OrderlyFrom(candidate, 1) && (candidate != [] ==> WellMade(candidate[0]))
    case Finalize(_, _) => true
  }

  ghost predicate Healthy(p: Primitives, limit: int, n: NodeState) {
    && Premined(n.chain) && OrderlyFrom(n.chain, 1) && InSync(p, limit, n)
    && Solvent(n.books) && Balanced(n.books)
  }

  lemma AppendOrderly(chain: seq<ChainBlock>, block: ChainBlock)
    requires Premined(chain) && OrderlyFrom(chain, 1) && Orderly(block.txs)
    ensures Premined(chain + [block]) && OrderlyFrom(chain + [block], 1)
  {
  }

  lemma SubmitHealthy(p: Primitives, limit: int, n: NodeState, block: ChainBlock, now: int)
    requires Healthy(p, limit, n) && now <= limit && Orderly(block.txs)
    ensures Accept(p, now, n, block).1 != RaisedAfterAppend && Healthy(p, limit, Accept(p, now, n, block).0)
  {
    if Admissible(p, now, n, block) {
      OrderlyBlock(n.books, block.txs);
      AppendOrderly(n.chain, block);
      var r := Accept(p, now, n, block);
      assert r.1 == Accepted && r.0.chain == n.chain + [block] && r.0.books == ApplyAll(n.books, block.txs).books;
      SubmitSync(p, limit, n, block, now);
      assert InSync(p, limit, r.0);
    }
  }

  lemma OfferHealthy(p: Primitives, limit: int, n: NodeState, candidate: seq<ChainBlock>, now: int)
    requires Healthy(p, limit, n) && now <= limit && OrderlyEvent(Offer(candidate, now))
    ensures Healthy(p, limit, Adopt(p, now, n, candidate).0)
  {
    if Adopt(p, now, n, candidate).1 == Adopted {
      assert candidate[0].Hash() == n.chain[0].Hash();
      ValidLater(p, now, limit, candidate);
      OrderlyChainSolvent(p, limit, candidate);
    }
  }

  /** Over every run from a healthy node, with orderly blocks only: no step raises after appending, and every
      pool, share and asset balance stays non-negative, the stake pool's OCN among them. */
  lemma {:induction false} RunStaysHealthy(p: Primitives, limit: int, n: NodeState, events: seq<Event>)
    requires Healthy(p, limit, n)
    requires forall i :: 0 <= i < |events| ==> By(limit, events[i]) && OrderlyEvent(events[i])
    ensures NoneRaised(p, n, events) && Healthy(p, limit, After(p, n, events))
    decreases events
  {
    if events != [] {
      match events[0] {
        case Submit(block, now) => SubmitHealthy(p, limit, n, block, now);
        case Offer(candidate, now) => OfferHealthy(p, limit, n, candidate, now);
        case Finalize(_, _) =>
      }
      RunStaysHealthy(p, limit, Handle(p, n, events[0]), events[1..]);
    }
  }

  lemma NewNodeHealthy(p: Primitives, limit: int)
    ensures Healthy(p, limit, NewNode()) && FinalizedHeld(NewNode())
  {
    NewNodeInSync(p, limit);
    assert NewNode().chain == [GENESIS];
    assert Merkle.Leaves(GENESIS.txs) == [Leaf(PREMINE)];
    GenesisBooks(p, limit, GENESIS);
  }

  // --- Supply over runs ---

  predicate Constructed(e: Event) {
    e.Offer? && e.candidate != [] ==> WellMade(e.candidate[0])
  }

  lemma HandleKeepsPremine(p: Primitives, n: NodeState, e: Event)
    requires n.chain != [] && Premined(n.chain) && Constructed(e)
    ensures Premined(Handle(p, n, e).chain)
  {
    if e.Offer? && Adopt(p, e.now, n, e.candidate).1 == Adopted {
      assert e.candidate[0].Hash() == n.chain[0].Hash();
    }
  }

  /** Whether it completes or a swap stops it, applying valid transactions keeps the books balanced. */
  lemma {:induction false} ApplyBalanced(b: Books, txs: seq<Tx>)
    requires Balanced(b) && AllTxValid(txs)
    ensures Balanced(ApplyAll(b, txs).books)
    decreases txs
  {
    if txs != [] {
      assert TxValid(txs[0]);
      if Apply(b, txs[0].body).Applied? {
        ApplyConserves(b, txs[0].body);
        ConservesBalanced(b, Apply(b, txs[0].body).books, txs[0].body);
        ApplyBalanced(Apply(b, txs[0].body).books, txs[1..]);
      }
    }
  }

  lemma HandleBalanced(p: Primitives, n: NodeState, e: Event)
    requires n.chain != [] && Premined(n.chain) && Balanced(n.books) && Constructed(e)
    ensures Balanced(Handle(p, n, e).books)
  {
    match e
    case Submit(block, now) =>
      if Admissible(p, now, n, block) {
        ApplyBalanced(n.books, block.txs);
      }
    case Offer(candidate, now) =>
      HandleKeepsPremine(p, n, e);
      if Adopt(p, now, n, candidate).1 == Adopted {
        SupplyOfValidChain(p, now, candidate);
      }
    case Finalize(_, _) =>
  }

  /** Over every run, raised blocks included, every asset other than OCN adds up to its recorded supply. */
  lemma {:induction false} AssetsAddUp(p: Primitives, n: NodeState, events: seq<Event>)
    requires n.chain != [] && Premined(n.chain) && Balanced(n.books)
    requires forall i :: 0 <= i < |events| ==> Constructed(events[i])
    ensures Balanced(After(p, n, events).books) && Premined(After(p, n, events).chain)
    decreases events
  {
    if events != [] {
      HandleBalanced(p, n, events[0]);
      HandleKeepsPremine(p, n, events[0]);
      AssetsAddUp(p, Handle(p, n, events[0]), events[1..]);
    }
  }

  /** All OCN add up to the premine and the subsidies of the chain, to within one micro-unit a block. */
  ghost predicate CoinsAddUp(n: NodeState) {
    -(|n.chain| - 1) <= Sum(n.books, OCN) - PREMINE.amount - Subsidies(n.chain) <= |n.chain| - 1
  }

  /** After every run of a new node: each asset adds up to its supply; and all OCN to the premine and the subsidies
      of the chain it ended on unless a block raised and no chain was adopted since. */
  lemma SupplyAfterRun(p: Primitives, limit: int, events: seq<Event>)
    requires forall i :: 0 <= i < |events| ==> By(limit, events[i]) && Constructed(events[i])
    ensures var n := After(p, NewNode(), events);
      && Balanced(n.books)
      && (!DamagedAfter(p, NewNode(), events, false) ==>
            CoinsAddUp(n) && Sum(n.books, OCN) <= PREMINE.amount + (|n.chain| - 1) * (BASE_REWARD * MICRO + 1))
  {
    NewNodeHealthy(p, limit);
    AssetsAddUp(p, NewNode(), events);
    RunInSyncIff(p, limit, NewNode(), events);
    var n := After(p, NewNode(), events);
    if !DamagedAfter(p, NewNode(), events, false) {
      SupplyOfValidChain(p, limit, n.chain);
      SubsidiesBounded(n.chain);
    }
  }
}
