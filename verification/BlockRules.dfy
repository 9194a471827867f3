/** When a block and a chain are valid and when a node takes them, spelled out rule by rule, and what the node holds
    afterwards.  The statements do not name the functions that check the rules. */
module BlockRules {
  import opened Wrappers
  import opened LedgerTypes
  import opened Rounding
  import opened Ledger
  import opened LedgerEffects
  import opened FixedPoint
  import opened ChainRules
  import opened ChainNode
  import Merkle
  import MedianTime

  // --- Transactions ---

  /** A coinbase carries no op; anything else is signed by the user who sends it and pays the least fee. */
  ghost predicate TxRules(tx: Tx) {
    if tx.body.sender == Network then tx.body.op == None
    else
      && tx.signed && tx.body.sender.User? && tx.body.fee >= 10_000
      && (tx.body.amount > 0 || (tx.body.amount == 0 && tx.body.op.Some?))
  }

  /** Staking pays the stake pool and liquidity the pool of its two assets, in order; whoever withdraws, removes or
      swaps pays itself; amounts are positive; and an asset transfer does not move OCN. */
  ghost predicate OpRules(t: TxBody) {
    match t.op
    case None => true
    case Some(Malformed(_)) => false
    case Some(TransferAsset(asset)) => t.amount > 0 && asset != Plain(0)
    case Some(StakeDeposit) => t.amount > 0 && t.recipient == StakePool
    case Some(StakeWithdraw) => t.amount > 0 && t.recipient == t.sender
    case Some(AddLiquidity(p, da, db)) => p.a < p.b && t.recipient == PoolAddr(p) && da > 0 && db > 0
    case Some(RemoveLiquidity(p, shares)) => p.a < p.b && t.recipient == t.sender && shares > 0
    case Some(Swap(p, assetIn, dx, minOut)) =>
      p.a < p.b && t.recipient == t.sender && assetIn in {Plain(p.a), Plain(p.b)} && dx > 0 && minOut >= 0
  }

  /** Books along which each op is well formed, can be applied and leaves no key that it debits below zero, and
      which nothing else changes. */
  ghost predicate Checked(txs: seq<Tx>, path: seq<Books>) {
    && |path| == |txs| + 1
    && forall i {:trigger txs[i]} :: 0 <= i < |txs| ==>
         if txs[i].body.op == None then path[i + 1] == path[i] else OpStep(path[i], txs[i].body, path[i + 1])
  }

  ghost predicate OpStep(b: Books, t: TxBody, after: Books) {
    && OpRules(t)
    && exists debited ::
         Apply(b, t) == Applied(after, debited) && forall k :: k in debited ==> At(after.balances, k) >= 0
  }

  lemma CheckedRest(txs: seq<Tx>, path: seq<Books>)
    requires txs != [] && Checked(txs, path)
    ensures Checked(txs[1..], path[1..])
    ensures if txs[0].body.op == None then path[1] == path[0] else OpStep(path[0], txs[0].body, path[1])
  {
    var rest := txs[1..];
    assert forall i :: 0 <= i < |rest| ==> rest[i] == txs[i + 1];
  }

  lemma CheckedMore(txs: seq<Tx>, path: seq<Books>, b: Books)
    requires txs != [] && Checked(txs[1..], path)
    requires if txs[0].body.op == None then path[0] == b else OpStep(b, txs[0].body, path[0])
    ensures Checked(txs, [b] + path)
  {
    var all := [b] + path;
    forall i | 0 <= i < |txs|
      ensures if txs[i].body.op == None then all[i + 1] == all[i] else OpStep(all[i], txs[i].body, all[i + 1])
    {
      if i > 0 {
        assert txs[1..][i - 1] == txs[i];
      }
    }
  }

  lemma OpStepIff(b: Books, t: TxBody, after: Books)
    requires t.op.Some?
    ensures OpStep(b, t, after)
      <==> OpValid(t) && Apply(b, t).Applied? && Apply(b, t).books == after && NoneNegative(after, Apply(b, t).debited)
  {
    if Apply(b, t).Applied? {
      var debited := Apply(b, t).debited;
      assert forall i :: 0 <= i < |debited| ==> debited[i] in debited;
    }
  }

  lemma {:induction false} OpsPassPath(b: Books, txs: seq<Tx>) returns (path: seq<Books>)
    requires OpsPass(b, txs)
    ensures Checked(txs, path) && path[0] == b
    decreases txs
  {
    if txs == [] {
      path := [b];
    } else {
      var t := txs[0].body;
      var next := if t.op.None? then b else Apply(b, t).books;
      if t.op.Some? {
        OpStepIff(b, t, next);
      }
      var rest := OpsPassPath(next, txs[1..]);
      CheckedMore(txs, rest, b);
      path := [b] + rest;
    }
  }

  lemma {:induction false} PathPasses(txs: seq<Tx>, path: seq<Books>)
    requires Checked(txs, path)
    ensures OpsPass(path[0], txs)
    decreases txs
  {
    if txs != [] {
      CheckedRest(txs, path);
      PathPasses(txs[1..], path[1..]);
      if txs[0].body.op.Some? {
        OpStepIff(path[0], txs[0].body, path[1]);
      }
    }
  }

  /** The check on the scratch copy passes exactly when such books exist. */
  lemma OpsPassIff(b: Books, txs: seq<Tx>)
    ensures OpsPass(b, txs) <==> exists path :: Checked(txs, path) && path[0] == b
  {
    if OpsPass(b, txs) {
      var path := OpsPassPath(b, txs);
    }
    if path :| Checked(txs, path) && path[0] == b {
      PathPasses(txs, path);
    }
  }

  lemma TxRulesIff(txs: seq<Tx>)
    ensures AllTxValid(txs) <==> forall tx :: tx in txs ==> TxRules(tx)
  {
    if AllTxValid(txs) {
      forall tx | tx in txs ensures TxRules(tx) {
        var i :| 0 <= i < |txs| && txs[i] == tx;
      }
    }
    if forall tx :: tx in txs ==> TxRules(tx) {
      forall i | 0 <= i < |txs| ensures TxValid(txs[i]) {
        assert txs[i] in txs;
      }
    }
  }

  // --- Sums ---

  function Total(xs: seq<int>): int {
    if xs == [] then 0 else xs[0] + Total(xs[1..])
  }

  function Minted(txs: seq<Tx>): seq<int> {
    seq(|txs|, i requires 0 <= i < |txs| => if txs[i].body.sender == Network then txs[i].body.amount else 0)
  }

  function FeesPaid(txs: seq<Tx>): seq<int> {
    seq(|txs|, i requires 0 <= i < |txs| => if txs[i].body.sender == Network then 0 else txs[i].body.fee)
  }

  lemma {:induction false} SumsAre(txs: seq<Tx>)
    ensures CoinbaseSum(txs) == Total(Minted(txs)) && Fees(txs) == Total(FeesPaid(txs))
  {
    if txs != [] {
      SumsAre(txs[1..]);
      assert Minted(txs)[1..] == Minted(txs[1..]) && FeesPaid(txs)[1..] == FeesPaid(txs[1..]);
    }
  }

  // --- The block itself ---

  /** More than half of the last eleven blocks, or of all there are, have earlier timestamps. */
  ghost predicate AboveMedian(before: seq<ChainBlock>, timestamp: int) {
    var recent := if |before| <= 11 then before else before[|before| - 11..];
    |set i | 0 <= i < |recent| && recent[i].header.timestamp < timestamp| > |recent| / 2
  }

  lemma {:induction false} CountIsSize(times: seq<int>, x: int)
    ensures MedianTime.CountBelow(times, x) == |set i | 0 <= i < |times| && times[i] < x|
  {
    if times != [] {
      var rest, last := times[..|times| - 1], times[|times| - 1];
      CountIsSize(rest, x);
      MedianTime.CountAppend(rest, last, x);
      assert times == rest + [last];
      var below := set i | 0 <= i < |rest| && rest[i] < x;
      assert (set i | 0 <= i < |times| && times[i] < x) == below + if last < x then {|rest|} else {};
    }
  }

  lemma MedianIff(before: seq<ChainBlock>, timestamp: int)
    requires before != []
    ensures timestamp > MedianTime.Median(MedianTime.Recent(Times(before))) <==> AboveMedian(before, timestamp)
  {
    var recent := if |before| <= 11 then before else before[|before| - 11..];
    var window := MedianTime.Recent(Times(before));
    assert window == Times(recent);
    MedianTime.MedianAtLeast(window, timestamp);
    EarlierCount(recent, timestamp);
  }

  lemma EarlierCount(blocks: seq<ChainBlock>, timestamp: int)
    ensures MedianTime.CountBelow(Times(blocks), timestamp)
      == |set i | 0 <= i < |blocks| && blocks[i].header.timestamp < timestamp|
  {
    var times := Times(blocks);
    CountIsSize(times, timestamp);
    assert (set i | 0 <= i < |times| && times[i] < timestamp)
      == set i | 0 <= i < |blocks| && blocks[i].header.timestamp < timestamp;
  }

  /** A mined block's hash is below its target; a staked block's kernel is below its target times the staker's whole
      coins, of which there is at least one. */
  ghost predicate Produced(p: Primitives, books: Books, block: ChainBlock) {
    var h := block.header;
    match block.staker
    case None => p.powValue(HeaderHash(h)) < h.target
    case Some(staker) =>
      var held := Bal(books, staker, Plain(0));
      var seconds := if h.timestamp >= 0 then h.timestamp / 1_000_000 else -(-h.timestamp / 1_000_000);
      held >= 1_000_000 && p.kernelValue(h.previous, staker, seconds) < h.target * (held / 1_000_000)
  }

  lemma ProducedIff(p: Primitives, books: Books, block: ChainBlock)
    ensures ProducerOk(p, books, block) <==> Produced(p, books, block)
  {
  }

  /** The reward of the height for a mined block, a tenth of it for a staked one. */
  ghost predicate SubsidyIs(block: ChainBlock, subsidy: int) {
    var reward := RewardAt(if block.header.index < 0 then 0 else block.header.index);
    if block.staker.Some? then Nearest(subsidy, reward, 10) else subsidy == reward
  }

  /** A block mints its subsidy and its fees, give or take a millionth, in one or more coinbases. */
  ghost predicate MintsItsDue(block: ChainBlock) {
    && (exists tx :: tx in block.txs && tx.body.sender == Network)
    && exists subsidy :: SubsidyIs(block, subsidy)
                         && -1 <= Total(Minted(block.txs)) - subsidy - Total(FeesPaid(block.txs)) <= 1
  }

  lemma SubsidyIff(block: ChainBlock, subsidy: int)
    ensures SubsidyIs(block, subsidy) <==> subsidy == Subsidy(block)
  {
    var reward := RewardAt(if block.header.index < 0 then 0 else block.header.index);
    RoundDivNearest(reward, 10);
    if block.staker.Some? && Nearest(subsidy, reward, 10) {
      NearestUnique(subsidy, Subsidy(block), reward, 10);
    }
  }

  lemma RewardIff(block: ChainBlock)
    ensures RewardOk(block) <==> MintsItsDue(block)
  {
    SumsAre(block.txs);
    SubsidyIff(block, Subsidy(block));
    if subsidy :| SubsidyIs(block, subsidy)
                  && -1 <= Total(Minted(block.txs)) - subsidy - Total(FeesPaid(block.txs)) <= 1 {
      SubsidyIff(block, subsidy);
    }
    if i :| 0 <= i < |block.txs| && block.txs[i].body.sender == Network {
      assert block.txs[i] in block.txs;
    }
    if tx :| tx in block.txs && tx.body.sender == Network {
      var i :| 0 <= i < |block.txs| && block.txs[i] == tx;
    }
  }

  /** No signed message is honoured twice: in the block, or after an earlier block. */
  ghost predicate HonouredOnce(before: seq<ChainBlock>, txs: seq<Tx>) {
    forall i :: 0 <= i < |txs| && txs[i].body.sender != Network ==>
      && (forall j :: 0 <= j < |txs| && j != i ==> txs[j].body != txs[i].body)
      && (forall b, tx :: b in before && tx in b.txs ==> tx.body != txs[i].body)
  }

  lemma ConfirmedIff(before: seq<ChainBlock>, body: TxBody)
    ensures Confirmed(before, body) <==> exists b, tx :: b in before && tx in b.txs && tx.body == body
  {
    if j :| 0 <= j < |before| && Contains(before[j].txs, body) {
      var k :| 0 <= k < |before[j].txs| && before[j].txs[k].body == body;
      assert before[j] in before && before[j].txs[k] in before[j].txs;
    }
    if b, tx :| b in before && tx in b.txs && tx.body == body {
      var j :| 0 <= j < |before| && before[j] == b;
      var k :| 0 <= k < |b.txs| && b.txs[k] == tx;
      assert Contains(before[j].txs, body);
    }
  }

  lemma HonouredIff(before: seq<ChainBlock>, txs: seq<Tx>)
    ensures NoRepeats(txs) && NoReplays(before, txs) <==> HonouredOnce(before, txs)
  {
    forall i | 0 <= i < |txs| ensures Confirmed(before, txs[i].body)
        <==> exists b, tx :: b in before && tx in b.txs && tx.body == txs[i].body {
      ConfirmedIff(before, txs[i].body);
    }
    if HonouredOnce(before, txs) {
      forall i, j | 0 <= i < j < |txs| && txs[i].body.sender != Network ensures txs[i].body != txs[j].body {
      }
    }
  }

  /** The block follows the chain: its link, its place, its time, its producer, its root, its coinbase, and that it
      honours no message again. */
  ghost predicate Follows(p: Primitives, now: int, before: seq<ChainBlock>, books: Books, block: ChainBlock)
    requires before != []
  {
    var parent, h := before[|before| - 1].header, block.header;
    && h.previous == HeaderHash(parent) && h.index == parent.index + 1
    && h.timestamp <= now + 7200 * 1_000_000 && AboveMedian(before, h.timestamp)
    && Produced(p, books, block)
    && h.merkleRoot == Merkle.MerkleRoot(block.txs)
    && MintsItsDue(block)
    && HonouredOnce(before, block.txs)
  }

  /** Ops may appear from height 90 on, and go through on a copy of the books. */
  ghost predicate OpsGoThrough(books: Books, block: ChainBlock) {
    && ((exists tx :: tx in block.txs && tx.body.op.Some?) ==> block.header.index >= 90)
    && exists path :: Checked(block.txs, path) && path[0] == books
  }

  ghost predicate AllTxRules(txs: seq<Tx>) {
    forall tx :: tx in txs ==> TxRules(tx)
  }

  ghost predicate Applies(books: Books, txs: seq<Tx>, after: Books) {
    exists path :: Walked(txs, path) && path[0] == books && path[|txs|] == after
  }

  lemma FollowsIff(p: Primitives, now: int, before: seq<ChainBlock>, books: Books, block: ChainBlock)
    requires before != []
    ensures Extends(p, now, before, books, block) <==> Follows(p, now, before, books, block)
  {
    MedianIff(before, block.header.timestamp);
    ProducedIff(p, books, block);
    RewardIff(block);
    HonouredIff(before, block.txs);
  }

  lemma OpsIff(books: Books, block: ChainBlock)
    ensures OpsChecked(books, block) <==> OpsGoThrough(books, block)
  {
    OpsPassIff(books, block.txs);
    if i :| 0 <= i < |block.txs| && block.txs[i].body.op.Some? {
      assert block.txs[i] in block.txs;
    }
    if tx :| tx in block.txs && tx.body.op.Some? {
      var i :| 0 <= i < |block.txs| && block.txs[i] == tx;
    }
  }

  lemma AppliesIff(books: Books, txs: seq<Tx>, after: Books)
    ensures ApplyAll(books, txs) == Done(after) <==> Applies(books, txs, after)
  {
    ApplyAllIff(books, txs, after);
  }

  // --- Chains ---

  /** A valid block on top of a chain that leaves these books. */
  ghost predicate BlockHolds(p: Primitives, now: int, before: seq<ChainBlock>, books: Books, block: ChainBlock,
                             after: Books)
    requires before != []
  {
    && Follows(p, now, before, books, block) && OpsGoThrough(books, block)
    && AllTxRules(block.txs) && Applies(books, block.txs, after)
  }

  lemma BlockHoldsIff(p: Primitives, now: int, before: seq<ChainBlock>, books: Books, block: ChainBlock, after: Books)
    requires before != []
    ensures JudgeBlock(p, now, before, books, block) == Valid(after)
      <==> BlockHolds(p, now, before, books, block, after)
  {
    FollowsIff(p, now, before, books, block);
    OpsIff(books, block);
    TxRulesIff(block.txs);
    AppliesIff(books, block.txs, after);
  }

  /** Every block of the chain is valid on the earlier ones, but for the first, which only has no parent; `trail` are
      the books after each number of blocks. */
  ghost predicate ChainHolds(p: Primitives, now: int, chain: seq<ChainBlock>, trail: seq<Books>) {
    && chain != [] && chain[0].header.previous == NoBlock
    && |trail| == |chain| + 1 && trail[0] == Books(map[], map[]) && Applies(trail[0], chain[0].txs, trail[1])
    && forall i {:trigger chain[i]} :: 0 < i < |chain| ==>
         BlockHolds(p, now, chain[..i], trail[i], chain[i], trail[i + 1])
  }

  /** A judgement that goes block by block: what it says of a chain is what `step` says of the last block. */
  type Judgement = seq<ChainBlock> -> Option<Books>
  type BlockStep = (seq<ChainBlock>, Books, ChainBlock, Books) -> bool

  ghost predicate GoesByBlocks(verdict: Judgement, step: BlockStep) {
    forall c, after {:trigger DecidedByLast(verdict, step, c, after)} ::
      |c| > 1 ==> DecidedByLast(verdict, step, c, after)
  }

  ghost predicate DecidedByLast(verdict: Judgement, step: BlockStep, c: seq<ChainBlock>, after: Books)
    requires |c| > 1
  {
    verdict(c) == Some(after) <==> verdict(Init(c)).Some? && step(Init(c), verdict(Init(c)).value, Tip(c), after)
  }

  ghost predicate TrailOf(verdict: Judgement, step: BlockStep, chain: seq<ChainBlock>, trail: seq<Books>) {
    && chain != [] && |trail| == |chain| + 1 && verdict(chain[..1]) == Some(trail[1])
    && forall i {:trigger chain[i]} :: 0 < i < |chain| ==> step(chain[..i], trail[i], chain[i], trail[i + 1])
  }

  lemma {:induction false} TrailForward(verdict: Judgement, step: BlockStep, chain: seq<ChainBlock>, first: Books)
    returns (trail: seq<Books>)
    requires GoesByBlocks(verdict, step) && chain != [] && verdict(chain).Some?
    ensures TrailOf(verdict, step, chain, trail) && trail[0] == first && Some(trail[|chain|]) == verdict(chain)
    decreases |chain|
  {
    assert chain[..|chain|] == chain;
    if |chain| == 1 {
      trail := [first, verdict(chain).value];
    } else {
      var shorter, after := Init(chain), verdict(chain).value;
      assert DecidedByLast(verdict, step, chain, after);
      var less := TrailForward(verdict, step, shorter, first);
      assert shorter[..1] == chain[..1];
      trail := less + [after];
      forall i | 0 < i < |chain| ensures step(chain[..i], trail[i], chain[i], trail[i + 1]) {
        assert i < |shorter| ==> shorter[..i] == chain[..i] && shorter[i] == chain[i];
      }
    }
  }

  lemma {:induction false} TrailBack(verdict: Judgement, step: BlockStep, chain: seq<ChainBlock>, trail: seq<Books>)
    requires GoesByBlocks(verdict, step) && TrailOf(verdict, step, chain, trail)
    ensures verdict(chain) == Some(trail[|chain|])
    decreases |chain|
  {
    assert chain[..|chain|] == chain;
    if |chain| > 1 {
      var shorter, less := Init(chain), trail[..|chain|];
      assert shorter[..1] == chain[..1];
      forall i | 0 < i < |shorter| ensures step(shorter[..i], less[i], shorter[i], less[i + 1]) {
        assert shorter[..i] == chain[..i] && shorter[i] == chain[i];
      }
      TrailBack(verdict, step, shorter, less);
      assert chain[|chain| - 1] == Tip(chain);
      assert DecidedByLast(verdict, step, chain, trail[|chain|]);
    }
  }

  lemma {:induction false} PrefixStep(verdict: Judgement, step: BlockStep, chain: seq<ChainBlock>, i: nat)
    requires GoesByBlocks(verdict, step) && verdict(chain).Some? && 0 < i < |chain|
    ensures verdict(chain[..i]).Some? && verdict(chain[..i + 1]).Some?
    ensures step(chain[..i], verdict(chain[..i]).value, chain[i], verdict(chain[..i + 1]).value)
    decreases |chain|
  {
    var shorter := Init(chain);
    assert DecidedByLast(verdict, step, chain, verdict(chain).value);
    assert chain[..|chain|] == chain && shorter[..|shorter|] == shorter;
    if i < |shorter| {
      PrefixStep(verdict, step, shorter, i);
      assert shorter[..i] == chain[..i] && shorter[..i + 1] == chain[..i + 1];
    }
  }

  ghost function Judged(p: Primitives, now: int, chain: seq<ChainBlock>): Option<Books> {
    var v := Judge(p, now, chain);
    if v.Valid? then Some(v.books) else None
  }

  ghost function Verdicts(p: Primitives, now: int): Judgement {
    c => Judged(p, now, c)
  }

  ghost function Holding(p: Primitives, now: int): BlockStep {
    (before, books, block, after) => before != [] && BlockHolds(p, now, before, books, block, after)
  }

  lemma JudgedByLast(p: Primitives, now: int, c: seq<ChainBlock>, after: Books)
    requires |c| > 1
    ensures Judged(p, now, c) == Some(after) <==>
      (&& Judged(p, now, Init(c)).Some?
       && JudgeBlock(p, now, Init(c), Judged(p, now, Init(c)).value, Tip(c)) == Valid(after))
  {
    assert Init(c)[0] == c[0];
    if Judge(p, now, Init(c)).Valid? {
      JudgeLast(p, now, c);
    } else if Judge(p, now, c).Valid? {
      JudgePrefix(p, now, c, |c| - 1);
    }
  }

  lemma HoldingDecides(p: Primitives, now: int)
    ensures GoesByBlocks(Verdicts(p, now), Holding(p, now))
  {
    forall c, after | |c| > 1 ensures DecidedByLast(Verdicts(p, now), Holding(p, now), c, after) {
      JudgedByLast(p, now, c, after);
      if Judged(p, now, Init(c)).Some? {
        BlockHoldsIff(p, now, Init(c), Judged(p, now, Init(c)).value, Tip(c), after);
      }
    }
  }

  lemma FirstJudged(p: Primitives, now: int, chain: seq<ChainBlock>, after: Books)
    requires chain != []
    ensures Judged(p, now, chain[..1]) == Some(after)
      <==> chain[0].header.previous == NoBlock && Applies(Books(map[], map[]), chain[0].txs, after)
  {
    AppliesIff(EMPTY_BOOKS, chain[0].txs, after);
    assert chain[..1][0] == chain[0];
  }

  lemma HoldsIffTrail(p: Primitives, now: int, chain: seq<ChainBlock>, trail: seq<Books>)
    ensures ChainHolds(p, now, chain, trail)
      <==> TrailOf(Verdicts(p, now), Holding(p, now), chain, trail) && trail[0] == Books(map[], map[])
  {
    if chain != [] && |trail| == |chain| + 1 {
      FirstJudged(p, now, chain, trail[1]);
    }
  }

  lemma ValidTrail(p: Primitives, now: int, chain: seq<ChainBlock>) returns (trail: seq<Books>)
    requires chain != [] && Judged(p, now, chain).Some?
    ensures ChainHolds(p, now, chain, trail) && Some(trail[|chain|]) == Judged(p, now, chain)
  {
    HoldingDecides(p, now);
    trail := TrailForward(Verdicts(p, now), Holding(p, now), chain, Books(map[], map[]));
    HoldsIffTrail(p, now, chain, trail);
  }

  lemma TrailValid(p: Primitives, now: int, chain: seq<ChainBlock>, trail: seq<Books>)
    requires ChainHolds(p, now, chain, trail)
    ensures Judged(p, now, chain) == Some(trail[|chain|])
  {
    HoldingDecides(p, now);
    HoldsIffTrail(p, now, chain, trail);
    TrailBack(Verdicts(p, now), Holding(p, now), chain, trail);
  }

  /** On a valid chain every block but the first holds on what validating the earlier ones computes. */
  lemma BlockOfChain(p: Primitives, now: int, chain: seq<ChainBlock>, i: nat)
    requires Judged(p, now, chain).Some? && 0 < i < |chain|
    ensures Judged(p, now, chain[..i]).Some? && Judged(p, now, chain[..i + 1]).Some?
    ensures BlockHolds(p, now, chain[..i], Judged(p, now, chain[..i]).value, chain[i],
                       Judged(p, now, chain[..i + 1]).value)
  {
    HoldingDecides(p, now);
    PrefixStep(Verdicts(p, now), Holding(p, now), chain, i);
  }

  /** Validation from scratch accepts a chain exactly when every block holds, and then computes its books. */
  lemma ValidIff(p: Primitives, now: int, chain: seq<ChainBlock>, books: Books)
    ensures Judge(p, now, chain) == Valid(books)
      <==> exists trail :: ChainHolds(p, now, chain, trail) && trail[|chain|] == books
  {
    if Judge(p, now, chain) == Valid(books) {
      var trail := ValidTrail(p, now, chain);
    }
    if trail :| ChainHolds(p, now, chain, trail) && trail[|chain|] == books {
      TrailValid(p, now, chain, trail);
    }
  }

  /** The block passes every check that comes before its transactions are applied, and then one of them cannot be. */
  ghost predicate BlockRaises(p: Primitives, now: int, before: seq<ChainBlock>, books: Books, block: ChainBlock)
    requires before != []
  {
    && Follows(p, now, before, books, block) && OpsGoThrough(books, block)
    && forall after :: !Applies(books, block.txs, after)
  }

  lemma BlockRaisesIff(p: Primitives, now: int, before: seq<ChainBlock>, books: Books, block: ChainBlock)
    requires before != []
    ensures JudgeBlock(p, now, before, books, block).Raises? <==> BlockRaises(p, now, before, books, block)
  {
    FollowsIff(p, now, before, books, block);
    OpsIff(books, block);
    NeverApplies(books, block.txs);
  }

  lemma NeverApplies(books: Books, txs: seq<Tx>)
    ensures ApplyAll(books, txs).Stopped? <==> forall after :: !Applies(books, txs, after)
  {
    forall after ensures ApplyAll(books, txs) == Done(after) <==> Applies(books, txs, after) {
      AppliesIff(books, txs, after);
    }
    if ApplyAll(books, txs).Done? {
      assert Applies(books, txs, ApplyAll(books, txs).books);
    }
  }

  /** The blocks below place i hold, and the one at place i raises. */
  ghost predicate RaisesAt(p: Primitives, now: int, chain: seq<ChainBlock>, i: int) {
    0 < i < |chain|
    && exists trail :: ChainHolds(p, now, chain[..i], trail) && BlockRaises(p, now, chain[..i], trail[i], chain[i])
  }

  /** The same for a judgement that can also raise. */
  ghost predicate OneMore(verdict: seq<ChainBlock> -> Verdict, step: (seq<ChainBlock>, Books, ChainBlock) -> Verdict,
                          c: seq<ChainBlock>)
    requires |c| > 1
  {
    verdict(c) == if verdict(Init(c)).Valid? then step(Init(c), verdict(Init(c)).books, Tip(c)) else verdict(Init(c))
  }

  ghost predicate GoesOn(verdict: seq<ChainBlock> -> Verdict, step: (seq<ChainBlock>, Books, ChainBlock) -> Verdict) {
    forall c {:trigger OneMore(verdict, step, c)} :: |c| > 1 ==> OneMore(verdict, step, c)
  }

  ghost predicate StepRaises(verdict: seq<ChainBlock> -> Verdict, step: (seq<ChainBlock>, Books, ChainBlock) -> Verdict,
                             chain: seq<ChainBlock>, i: int) {
    0 < i < |chain| && verdict(chain[..i]).Valid? && step(chain[..i], verdict(chain[..i]).books, chain[i]).Raises?
  }

  lemma {:induction false} RaiseIff(verdict: seq<ChainBlock> -> Verdict,
                                    step: (seq<ChainBlock>, Books, ChainBlock) -> Verdict, chain: seq<ChainBlock>)
    requires GoesOn(verdict, step) && chain != []
    ensures verdict(chain).Raises? <==> verdict(chain[..1]).Raises? || exists i :: StepRaises(verdict, step, chain, i)
    decreases |chain|
  {
    assert chain[..|chain|] == chain;
    if |chain| > 1 {
      var shorter := Init(chain);
      assert OneMore(verdict, step, chain) && shorter[..1] == chain[..1];
      RaiseIff(verdict, step, shorter);
      assert forall i :: 0 <= i <= |shorter| ==> shorter[..i] == chain[..i];
      forall i | 0 < i < |shorter|
        ensures StepRaises(verdict, step, shorter, i) <==> StepRaises(verdict, step, chain, i) {
        assert shorter[..i] == chain[..i] && shorter[i] == chain[i];
      }
      assert StepRaises(verdict, step, chain, |shorter|)
        <==> verdict(shorter).Valid? && step(shorter, verdict(shorter).books, Tip(chain)).Raises?;
      if i :| StepRaises(verdict, step, chain, i) {
        assert i < |shorter| ==> StepRaises(verdict, step, shorter, i);
      }
    }
  }

  lemma RaisesAtIff(p: Primitives, now: int, chain: seq<ChainBlock>, i: int)
    requires 0 < i < |chain|
    ensures RaisesAt(p, now, chain, i) <==>
      (&& Judged(p, now, chain[..i]).Some?
       && JudgeBlock(p, now, chain[..i], Judged(p, now, chain[..i]).value, chain[i]).Raises?)
  {
    var before := chain[..i];
    if trail :| ChainHolds(p, now, before, trail) && BlockRaises(p, now, before, trail[i], chain[i]) {
      TrailValid(p, now, before, trail);
      BlockRaisesIff(p, now, before, trail[i], chain[i]);
    }
    if Judged(p, now, before).Some? {
      var trail := ValidTrail(p, now, before);
      BlockRaisesIff(p, now, before, trail[i], chain[i]);
    }
  }

  ghost function Judging(p: Primitives, now: int): seq<ChainBlock> -> Verdict {
    c => Judge(p, now, c)
  }

  ghost function JudgingBlocks(p: Primitives, now: int): (seq<ChainBlock>, Books, ChainBlock) -> Verdict {
    (before, books, block) => if before == [] then Invalid else JudgeBlock(p, now, before, books, block)
  }

  lemma JudgingGoesOn(p: Primitives, now: int)
    ensures GoesOn(Judging(p, now), JudgingBlocks(p, now))
  {
    forall c | |c| > 1 ensures OneMore(Judging(p, now), JudgingBlocks(p, now), c) {
      assert Init(c)[0] == c[0];
    }
  }

  lemma FirstRaises(p: Primitives, now: int, chain: seq<ChainBlock>)
    requires chain != [] && chain[0].header.previous == NoBlock
    ensures Judge(p, now, chain[..1]).Raises? <==> forall after :: !Applies(Books(map[], map[]), chain[0].txs, after)
  {
    NeverApplies(EMPTY_BOOKS, chain[0].txs);
    assert chain[..1][0] == chain[0];
  }

  /** Validation raises exactly when the transactions of the first block cannot all be applied, or those of a later
      block that is otherwise in order on top of blocks that hold. */
  lemma RaisesIff(p: Primitives, now: int, chain: seq<ChainBlock>)
    requires chain != [] && chain[0].header.previous == NoBlock
    ensures Judge(p, now, chain).Raises?
      <==> (forall after :: !Applies(Books(map[], map[]), chain[0].txs, after))
           || exists i :: RaisesAt(p, now, chain, i)
  {
    JudgingGoesOn(p, now);
    RaiseIff(Judging(p, now), JudgingBlocks(p, now), chain);
    FirstRaises(p, now, chain);
    forall i ensures RaisesAt(p, now, chain, i) <==> StepRaises(Judging(p, now), JudgingBlocks(p, now), chain, i) {
      if 0 < i < |chain| {
        RaisesAtIff(p, now, chain, i);
      }
    }
  }

  // --- What a node takes ---

  /** The pending transactions at these places, in their order, are those that the block does not contain. */
  ghost predicate StillPending(pending: seq<Tx>, mined: seq<Tx>, left: seq<Tx>, places: seq<int>) {
    && |places| == |left|
    && (forall i, j :: 0 <= i < j < |places| ==> places[i] < places[j])
    && (forall j :: 0 <= j < |places| ==> 0 <= places[j] < |pending| && left[j] == pending[places[j]])
    && forall i :: 0 <= i < |pending| ==> (i in places <==> forall tx :: tx in mined ==> tx.body != pending[i].body)
  }

  lemma ContainsIff(txs: seq<Tx>, body: TxBody)
    ensures Contains(txs, body) <==> exists tx :: tx in txs && tx.body == body
  {
    if k :| 0 <= k < |txs| && txs[k].body == body {
      assert txs[k] in txs;
    }
    if tx :| tx in txs && tx.body == body {
      var k :| 0 <= k < |txs| && txs[k] == tx;
    }
  }

  lemma {:induction false} PendingPlaces(pending: seq<Tx>, mined: seq<Tx>) returns (places: seq<int>)
    ensures StillPending(pending, mined, Unmined(pending, mined), places)
  {
    if pending == [] {
      places := [];
    } else {
      var rest, last := pending[..|pending| - 1], pending[|pending| - 1];
      var fewer := PendingPlaces(rest, mined);
      assert pending == rest + [last];
      UnminedLast(rest, last, mined);
      PlacesMore(rest, last, mined, Unmined(rest, mined), fewer);
      places := if Contains(mined, last.body) then fewer else fewer + [|rest|];
    }
  }

  lemma PlacesMore(pending: seq<Tx>, last: Tx, mined: seq<Tx>, left: seq<Tx>, places: seq<int>)
    requires StillPending(pending, mined, left, places)
    ensures Contains(mined, last.body) ==> StillPending(pending + [last], mined, left, places)
    ensures !Contains(mined, last.body) ==> StillPending(pending + [last], mined, left + [last], places + [|pending|])
  {
    ContainsIff(mined, last.body);
    assert forall i :: i in places ==> i < |pending|;
  }

  function IfUnmined(tx: Tx, mined: seq<Tx>): seq<Tx> {
    if Contains(mined, tx.body) then [] else [tx]
  }

  lemma UnminedFirst(pending: seq<Tx>, mined: seq<Tx>)
    requires pending != []
    ensures Unmined(pending, mined) == IfUnmined(pending[0], mined) + Unmined(pending[1..], mined)
  {
  }

  lemma {:induction false} UnminedLast(pending: seq<Tx>, last: Tx, mined: seq<Tx>)
    ensures Unmined(pending + [last], mined) == Unmined(pending, mined) + IfUnmined(last, mined)
  {
    var all := pending + [last];
    UnminedFirst(all, mined);
    if pending == [] {
      assert all[1..] == [];
    } else {
      UnminedFirst(pending, mined);
      UnminedLast(pending[1..], last, mined);
      assert all[1..] == pending[1..] + [last];
    }
  }

  /** The node holds the block, the books it leaves, the pending transactions it does not contain, and the next target
      of its kind. */
  ghost predicate Took(p: Primitives, n: NodeState, block: ChainBlock, after: NodeState) {
    && after.chain == n.chain + [block]
    && Applies(n.books, block.txs, after.books)
    && (exists places :: StillPending(n.mempool, block.txs, after.mempool, places))
    && after.finalized == n.finalized
    && after.powTarget == (if block.staker.Some? then n.powTarget else p.nextPow(after.chain, n.powTarget))
    && after.posTarget == (if block.staker.Some? then p.nextPos(after.chain, n.posTarget) else n.posTarget)
  }

  /** The first transaction that cannot be applied stops the walk, with the earlier ones applied. */
  ghost predicate Halfway(books: Books, txs: seq<Tx>, after: Books) {
    exists i, path :: 0 <= i < |txs| && Walked(txs[..i], path) && path[0] == books && path[i] == after
                      && Apply(after, txs[i].body).Slippage?
  }

  lemma {:induction false} StoppedHalfway(b: Books, txs: seq<Tx>)
    requires ApplyAll(b, txs).Stopped?
    ensures Halfway(b, txs, ApplyAll(b, txs).books)
    decreases txs
  {
    var after := ApplyAll(b, txs).books;
    if Apply(b, txs[0].body).Slippage? {
      assert Walked(txs[..0], [b]) && [b][0] == after;
    } else {
      var next := Apply(b, txs[0].body).books;
      StoppedHalfway(next, txs[1..]);
      var i, path :| 0 <= i < |txs[1..]| && Walked(txs[1..][..i], path) && path[0] == next && path[i] == after
        && Apply(after, txs[1..][i].body).Slippage?;
      var first := txs[..i + 1];
      assert first[1..] == txs[1..][..i];
      WalkedMore(first, path, b);
      assert ([b] + path)[i + 1] == after && txs[i + 1] == txs[1..][i];
    }
  }

  /** A node takes a block exactly when it holds on the node's chain and books at the current target of its kind; if
      its transactions cannot all be applied the node is left with the block and a part of them. */
  lemma AcceptExactly(p: Primitives, now: int, n: NodeState, block: ChainBlock)
    requires n.chain != []
    ensures var (after, result) := Accept(p, now, n, block);
      var fits := (&& Follows(p, now, n.chain, n.books, block) && OpsGoThrough(n.books, block) && AllTxRules(block.txs)
                   && block.header.target == if block.staker.Some? then n.posTarget else n.powTarget);
      && (result == Refused <==> !fits)
      && (result == Accepted <==> fits && exists books :: Applies(n.books, block.txs, books))
      && match result
         case Refused => after == n
         case Accepted => Took(p, n, block, after)
         case RaisedAfterAppend =>
           after == n.(chain := n.chain + [block], books := after.books) && Halfway(n.books, block.txs, after.books)
  {
    FollowsIff(p, now, n.chain, n.books, block);
    OpsIff(n.books, block);
    TxRulesIff(block.txs);
    NeverApplies(n.books, block.txs);
    var applied := ApplyAll(n.books, block.txs);
    if applied.Stopped? {
      StoppedHalfway(n.books, block.txs);
    } else {
      AppliesIff(n.books, block.txs, applied.books);
      var places := PendingPlaces(n.mempool, block.txs);
    }
  }

  // --- Competing chains ---

  /** The target of the last block of this kind, or the old one when there is none. */
  ghost predicate TargetOfLast(chain: seq<ChainBlock>, staked: bool, before: int, target: int) {
    if forall i :: 0 <= i < |chain| ==> chain[i].staker.Some? != staked then target == before
    else exists i :: 0 <= i < |chain| && chain[i].staker.Some? == staked && target == chain[i].header.target
                     && forall j :: i < j < |chain| ==> chain[j].staker.Some? != staked
  }

  lemma {:induction false} LastTargetIs(chain: seq<ChainBlock>, staked: bool, default: int)
    ensures TargetOfLast(chain, staked, default, LastTarget(chain, staked, default))
    decreases |chain|
  {
    if chain != [] && Tip(chain).staker.Some? != staked {
      LastTargetIs(Init(chain), staked, default);
      assert forall i :: 0 <= i < |Init(chain)| ==> Init(chain)[i] == chain[i];
    }
  }

  /** The candidate is strictly longer, has the same hash at every place up to the checkpoint twenty blocks back, and
      contains every finalized block. */
  ghost predicate Eligible(n: NodeState, candidate: seq<ChainBlock>) {
    && |candidate| > |n.chain|
    && (forall i :: 0 <= i < |n.chain| && (i == 0 || i <= |n.chain| - 20) ==> candidate[i].header == n.chain[i].header)
    && (forall i :: i in n.finalized ==> i < |candidate| && HeaderHash(candidate[i].header) == n.finalized[i])
  }

  /** A node adopts a chain if and only if it is eligible and valid from scratch.  It then holds that chain with the
      books it leaves, the targets of its last blocks and no pending transactions; otherwise nothing changes. */
  lemma AdoptExactly(p: Primitives, now: int, n: NodeState, candidate: seq<ChainBlock>)
    requires n.chain != []
    ensures var (after, choice) := Adopt(p, now, n, candidate);
      && (choice == Adopted <==> Eligible(n, candidate) && Judge(p, now, candidate).Valid?)
      && (choice == RaisedInValidation <==> Eligible(n, candidate) && Judge(p, now, candidate).Raises?)
      && if choice == Adopted then
           && after.chain == candidate && Judge(p, now, candidate) == Valid(after.books)
           && after.mempool == [] && after.finalized == n.finalized
           && TargetOfLast(candidate, false, n.powTarget, after.powTarget)
           && TargetOfLast(candidate, true, n.posTarget, after.posTarget)
         else after == n
  {
    EligibleIff(n, candidate);
    LastTargetIs(candidate, false, n.powTarget);
    LastTargetIs(candidate, true, n.posTarget);
  }

  lemma EligibleIff(n: NodeState, candidate: seq<ChainBlock>)
    requires n.chain != []
    ensures Eligible(n, candidate)
      <==> |candidate| > |n.chain| && !DivergesBeforeCheckpoint(n.chain, candidate)
           && !ConflictsWithFinality(n.finalized, candidate)
  {
    var c := CheckpointIndex(n.chain);
    if |candidate| > |n.chain| {
      assert forall i :: 0 <= i < |n.chain| ==>
        (candidate[i].Hash() == n.chain[i].Hash() <==> candidate[i].header == n.chain[i].header);
    }
  }

  /** A block is marked final exactly when the node holds it at that place. */
  lemma MarkExactly(n: NodeState, index: int, hash: BlockHash)
    ensures var (after, marked) := Mark(n, index, hash);
      && (marked <==> 0 <= index < |n.chain| && HeaderHash(n.chain[index].header) == hash)
      && if marked then after == n.(finalized := n.finalized[index := hash]) else after == n
  {
  }
}
