/** Blocks that a node accepts, or raises on, although they leave the ledger in a state the checks are meant to rule
    out: why independence and covered pools are needed.  Every state here is reached by a run of a new node. */
module ChainExamples {
  import opened Wrappers
  import opened LedgerTypes
  import opened Rounding
  import opened Ledger
  import opened LedgerTotals
  import opened LedgerSolvency
  import opened BlockIndependence
  import opened ChainRules
  import opened ChainNode
  import opened ChainRuns
  import opened BlockTemplate
  import opened FixedPoint
  import MedianTime

  /** Proof hashes that meet every target, and no retargeting. */
  const EASY := Primitives(_ => 0, (_, _, _) => 0, (_, target) => target, (_, target) => target)

  const MINER := User(9)
  const HOLDER := PREMINE_ADDRESS
  const PAIR := PoolKey(0, 1)

  function Coinbase(to: Addr, amount: int): Tx {
    Tx(TxBody(Network, to, amount, 0, 0, None), false)
  }

  function Signed(who: Addr, to: Addr, amount: int, fee: int, time: int, op: Op): Tx {
    Tx(TxBody(who, to, amount, fee, time, Some(op)), true)
  }

  // --- Timestamps that rise by one ---

  lemma {:induction false} CountAll(s: seq<int>, x: int)
    requires forall i :: 0 <= i < |s| ==> s[i] < x
    ensures MedianTime.CountBelow(s, x) == |s|
  {
    if s != [] {
      CountAll(s[1..], x);
    }
  }

  lemma MedianBelow(times: seq<int>, x: int)
    requires times != [] && forall i :: 0 <= i < |times| ==> times[i] < x
    ensures MedianTime.Median(MedianTime.Recent(times)) < x
  {
    var window := MedianTime.Recent(times);
    CountAll(window, x);
    MedianTime.MedianAtLeast(window, x);
  }

  ghost predicate Ticking(chain: seq<ChainBlock>) {
    forall i :: 0 <= i < |chain| ==> chain[i].header.timestamp == i
  }

  lemma NextTick(chain: seq<ChainBlock>)
    requires chain != [] && Ticking(chain) && |chain| <= 100
    ensures TimestampOk(0, chain, |chain|)
  {
    MedianBelow(Times(chain), |chain|);
  }

  // --- A chain of empty blocks ---

  /** Only coinbases, and transactions signed at time 0. */
  ghost predicate EarlyOnly(chain: seq<ChainBlock>) {
    forall i, k :: 0 <= i < |chain| && 0 <= k < |chain[i].txs| ==>
      chain[i].txs[k].body.sender == Network || chain[i].txs[k].body.time == 0
  }

  ghost predicate SoFar(n: NodeState, events: seq<Event>, length: nat) {
    && |n.chain| == length > 0 && Healthy(EASY, 0, n) && n.powTarget == INITIAL_TARGET && Ticking(n.chain)
    && Recorded(n, events)
  }

  /** The events lead a new node here, and none of them raised. */
  ghost predicate Recorded(n: NodeState, events: seq<Event>) {
    && After(EASY, NewNode(), events) == n && !DamagedAfter(EASY, NewNode(), events, false)
    && forall i :: 0 <= i < |events| ==> By(0, events[i]) && Constructed(events[i])
  }

  lemma SubmitAfter(n: NodeState, events: seq<Event>, block: ChainBlock)
    requires n.chain != [] && Recorded(n, events)
    ensures var more := events + [Submit(block, 0)];
      && After(EASY, NewNode(), more) == Accept(EASY, 0, n, block).0
      && DamagedAfter(EASY, NewNode(), more, false) == (Accept(EASY, 0, n, block).1 == RaisedAfterAppend)
      && forall i :: 0 <= i < |more| ==> By(0, more[i]) && Constructed(more[i])
  {
    AfterAppend(EASY, NewNode(), events, Submit(block, 0), false);
  }

  lemma {:induction false} AfterAppend(p: Primitives, n: NodeState, events: seq<Event>, e: Event, damaged: bool)
    requires n.chain != []
    ensures After(p, n, events + [e]) == Handle(p, After(p, n, events), e)
    ensures DamagedAfter(p, n, events + [e], damaged)
      == Damaged(p, After(p, n, events), e, DamagedAfter(p, n, events, damaged))
    decreases events
  {
    if events == [] {
      assert (events + [e])[1..] == [];
    } else {
      assert (events + [e])[1..] == events[1..] + [e];
      AfterAppend(p, Handle(p, n, events[0]), events[1..], e, Damaged(p, n, events[0], damaged));
    }
  }

  lemma AcceptedMined(n: NodeState, block: ChainBlock)
    requires n.chain != [] && block.staker.None? && Accept(EASY, 0, n, block).1 == Accepted
    ensures var next := Accept(EASY, 0, n, block).0;
      next.chain == n.chain + [block] && next.powTarget == n.powTarget && ApplyAll(n.books, block.txs) == Done(next.books)
  {
  }

  lemma StillTicking(chain: seq<ChainBlock>, block: ChainBlock)
    requires Ticking(chain) && block.header.timestamp == |chain|
    ensures Ticking(chain + [block])
  {
  }

  /** One more accepted block. */
  lemma Extend(n: NodeState, events: seq<Event>, length: nat, block: ChainBlock) returns (next: NodeState, more: seq<Event>)
    requires SoFar(n, events, length) && block.header.timestamp == length && block.staker.None?
    requires Accept(EASY, 0, n, block).1 == Accepted && Healthy(EASY, 0, Accept(EASY, 0, n, block).0)
    ensures SoFar(next, more, length + 1) && next.chain == n.chain + [block]
    ensures ApplyAll(n.books, block.txs) == Done(next.books) && more == events + [Submit(block, 0)]
  {
    next, more := Accept(EASY, 0, n, block).0, events + [Submit(block, 0)];
    AcceptedMined(n, block);
    StillTicking(n.chain, block);
    SubmitAfter(n, events, block);
  }

  ghost predicate Untouched(n: NodeState) {
    && (forall i, k :: 0 <= i < |n.chain| && 0 <= k < |n.chain[i].txs| ==> n.chain[i].txs[k].body.sender == Network)
    && Bal(n.books, HOLDER, OCN) == PREMINE.amount && Bal(n.books, StakePool, OCN) == 0
    && n.books.supply == map[]
    && (forall k: Key :: k.1 != OCN || k.0 == PoolAddr(PAIR) ==> At(n.books.balances, k) == 0)
  }

  /** A miner solves the template with these transactions. */
  lemma Mine(n: NodeState, events: seq<Event>, length: nat, included: seq<Tx>) returns (next: NodeState, more: seq<Event>)
    requires SoFar(n, events, length) && length <= 100 && Includable(n, included)
    requires forall i :: 0 <= i < |included| ==> included[i].body.sender != Network
    requires Independent(TemplateTxs(n, MINER, included, 0))
    ensures SoFar(next, more, length + 1)
    ensures next.chain == n.chain + [Candidate(n, MINER, included, 0, length, 0)]
    ensures ApplyAll(n.books, TemplateTxs(n, MINER, included, 0)) == Done(next.books)
  {
    NextTick(n.chain);
    MinedBlockAccepted(EASY, 0, 0, n, MINER, included, 0, length, 0);
    next, more := Extend(n, events, length, Candidate(n, MINER, included, 0, length, 0));
  }

  lemma EmptyStep(n: NodeState, events: seq<Event>, length: nat) returns (next: NodeState, more: seq<Event>)
    requires SoFar(n, events, length) && Untouched(n) && length <= 100
    ensures SoFar(next, more, length + 1) && Untouched(next)
  {
    next, more := Mine(n, events, length, []);
    StaysUntouched(n, next, Candidate(n, MINER, [], 0, length, 0));
  }

  lemma StaysUntouched(n: NodeState, next: NodeState, block: ChainBlock)
    requires n.chain != [] && Untouched(n) && next.chain == n.chain + [block] && block.txs == TemplateTxs(n, MINER, [], 0)
    requires ApplyAll(n.books, block.txs) == Done(next.books)
    ensures Untouched(next)
  {
    var coinbase := block.txs[0].body;
    assert block.txs[1..] == [];
    assert ApplyAll(n.books, block.txs) == ApplyAll(Apply(n.books, coinbase).books, []);
    assert next.books == Credit(n.books, MINER, OCN, coinbase.amount);
  }

  lemma {:induction false} EmptyChain(length: nat) returns (n: NodeState, events: seq<Event>)
    requires 1 <= length <= 100
    ensures SoFar(n, events, length) && Untouched(n)
  {
    if length == 1 {
      n, events := NewNode(), [];
      NewNodeHealthy(EASY, 0);
    } else {
      var before, earlier := EmptyChain(length - 1);
      n, events := EmptyStep(before, earlier, length - 1);
    }
  }

  // --- Stake and a pool, once ops are active ---

  /** The premine holder stakes 2000 and adds a hundred of each side to the pool of OCN and stOCN. */
  function Funding(): seq<Tx> {
    [Signed(HOLDER, StakePool, 2000, MIN_FEE, 0, StakeDeposit),
     Signed(HOLDER, PoolAddr(PAIR), 0, MIN_FEE, 0, AddLiquidity(PAIR, 100, 100))]
  }

  ghost predicate Funded(b: Books) {
    && Bal(b, StakePool, OCN) == 2000 && At(b.supply, STOCN) == 2000 && Bal(b, HOLDER, STOCN) == 1900
    && Bal(b, PoolAddr(PAIR), OCN) == 100 && Bal(b, PoolAddr(PAIR), STOCN) == 100
    && At(b.supply, Lp(PAIR)) == 100 && Bal(b, HOLDER, OCN) == PREMINE.amount - 2100 - 2 * MIN_FEE
    && Bal(b, HOLDER, Lp(PAIR)) == 100
  }

  lemma SquareOrder(x: int, y: int)
    requires 0 <= x <= y
    ensures x * x <= y * y
  {
    MulOrder(x, y, x);
    MulOrder(x, y, y);
  }

  /** Of two candidates for the nearest root, the one that is low enough is at most the one that is high enough. */
  lemma RootsOrdered(n: int, low: int, high: int)
    requires low >= 1 && high >= 0 && (2 * low - 1) * (2 * low - 1) < 4 * n <= (2 * high + 1) * (2 * high + 1)
    ensures low <= high
  {
    if low > high {
      SquareOrder(2 * high + 1, 2 * low - 1);
      assert false;
    }
  }

  lemma NearestRootIs(n: nat, root: int)
    requires root >= 1 && (2 * root - 1) * (2 * root - 1) < 4 * n <= (2 * root + 1) * (2 * root + 1)
    ensures NearestRoot(n) == root
  {
    var r := NearestRoot(n);
    RootsOrdered(n, root, r);
    RootsOrdered(n, r, root);
  }

  lemma PassTwo(b: Books, mid: Books, t0: Tx, t1: Tx)
    requires OpValid(t0.body) && OpValid(t1.body) && t0.body.op.Some? && t1.body.op.Some?
    requires Apply(b, t0.body).Applied? && Apply(b, t0.body).books == mid && NoneNegative(mid, Apply(b, t0.body).debited)
    requires Apply(mid, t1.body).Applied? && NoneNegative(Apply(mid, t1.body).books, Apply(mid, t1.body).debited)
    ensures OpsPass(b, [t0, t1])
  {
    assert [t0, t1][1..] == [t1] && [t1][1..] == [];
    assert OpsPass(mid, [t1]);
  }

  lemma ApplyCons(b: Books, t: Tx, rest: seq<Tx>)
    requires Apply(b, t.body).Applied?
    ensures ApplyAll(b, [t] + rest) == ApplyAll(Apply(b, t.body).books, rest)
  {
    assert ([t] + rest)[1..] == rest;
  }

  /** The books after the stake and the liquidity, from books that hold the premine and nothing else of interest. */
  lemma FundingEffect(b: Books) returns (mid: Books, after: Books)
    requires Bal(b, HOLDER, OCN) == PREMINE.amount && Bal(b, StakePool, OCN) == 0 && b.supply == map[]
    requires forall k: Key :: k.1 != OCN || k.0 == PoolAddr(PAIR) ==> At(b.balances, k) == 0
    ensures Apply(b, Funding()[0].body).Applied? && Apply(b, Funding()[0].body).books == mid
    ensures NoneNegative(mid, Apply(b, Funding()[0].body).debited)
    ensures Apply(mid, Funding()[1].body).Applied? && Apply(mid, Funding()[1].body).books == after
    ensures NoneNegative(after, Apply(mid, Funding()[1].body).debited)
    ensures Funded(after)
  {
    mid := StakeEffect(b);
    after := PoolEffect(mid);
  }

  ghost predicate Staked(b: Books) {
    && Bal(b, StakePool, OCN) == 2000 && At(b.supply, STOCN) == 2000 && Bal(b, HOLDER, STOCN) == 2000
    && Bal(b, HOLDER, OCN) == PREMINE.amount - 2000 - MIN_FEE
    && Bal(b, PoolAddr(PAIR), OCN) == 0 && Bal(b, PoolAddr(PAIR), STOCN) == 0
    && At(b.supply, Lp(PAIR)) == 0 && Bal(b, HOLDER, Lp(PAIR)) == 0
  }

  lemma StakeEffect(b: Books) returns (mid: Books)
    requires Bal(b, HOLDER, OCN) == PREMINE.amount && Bal(b, StakePool, OCN) == 0 && b.supply == map[]
    requires forall k: Key :: k.1 != OCN || k.0 == PoolAddr(PAIR) ==> At(b.balances, k) == 0
    ensures Apply(b, Funding()[0].body).Applied? && Apply(b, Funding()[0].body).books == mid
    ensures NoneNegative(mid, Apply(b, Funding()[0].body).debited) && Staked(mid)
  {
    mid := PostDeposit(b, Funding()[0].body, 2000);
    assert At(b.balances, (HOLDER, STOCN)) == 0 && At(b.balances, (HOLDER, Lp(PAIR))) == 0;
    assert At(b.balances, (PoolAddr(PAIR), OCN)) == 0 && At(b.balances, (PoolAddr(PAIR), STOCN)) == 0;
  }

  lemma PoolEffect(mid: Books) returns (after: Books)
    requires Staked(mid)
    ensures Apply(mid, Funding()[1].body).Applied? && Apply(mid, Funding()[1].body).books == after
    ensures NoneNegative(after, Apply(mid, Funding()[1].body).debited) && Funded(after)
  {
    NearestRootIs(100 * 100, 100);
    after := PostAdd(mid, Funding()[1].body, PAIR, 100, 100, 100);
  }

  lemma FundingIncludable(n: NodeState, mid: Books, after: Books)
    requires n.chain != [] && Tip(n.chain).header.index == 89 && Untouched(n)
    requires Apply(n.books, Funding()[0].body).Applied? && Apply(n.books, Funding()[0].body).books == mid
    requires NoneNegative(mid, Apply(n.books, Funding()[0].body).debited)
    requires Apply(mid, Funding()[1].body).Applied? && Apply(mid, Funding()[1].body).books == after
    requires NoneNegative(after, Apply(mid, Funding()[1].body).debited)
    ensures Includable(n, Funding())
  {
    PassTwo(n.books, mid, Funding()[0], Funding()[1]);
    assert Funding()[0].body.op != Funding()[1].body.op;
  }

  /** Ninety empty blocks, then one with the two ops. */
  lemma FundedChain() returns (n: NodeState, events: seq<Event>)
    ensures SoFar(n, events, 91) && Funded(n.books) && EarlyOnly(n.chain)
  {
    var before, earlier := EmptyChain(90);
    IndexIsPosition(EASY, 0, before.chain, 89);
    n, events := MineFunding(before, earlier);
  }

  lemma FundingIndependent(n: NodeState)
    requires n.chain != []
    ensures Independent(TemplateTxs(n, MINER, Funding(), 0))
  {
    var txs := TemplateTxs(n, MINER, Funding(), 0);
    assert txs[1] == Funding()[0] && txs[2] == Funding()[1];
    assert forall i :: 0 <= i < |txs| && txs[i].body.op.None? ==> i == 0;
    assert forall a :: a in Paid(txs) ==> a == MINER;
  }

  lemma MineFunding(before: NodeState, earlier: seq<Event>) returns (n: NodeState, events: seq<Event>)
    requires SoFar(before, earlier, 90) && Untouched(before) && Tip(before.chain).header.index == 89
    ensures SoFar(n, events, 91) && Funded(n.books) && EarlyOnly(n.chain)
  {
    var mid, after := FundingEffect(before.books);
    FundingIncludable(before, mid, after);
    FundingIndependent(before);
    n, events := Mine(before, earlier, 90, Funding());
    FundedBooks(before.books, n.books, TemplateTxs(before, MINER, Funding(), 0)[0]);
    FundedEarly(before, n, Candidate(before, MINER, Funding(), 0, 90, 0));
  }

  lemma FundedBooks(b: Books, result: Books, coinbase: Tx)
    requires Bal(b, HOLDER, OCN) == PREMINE.amount && Bal(b, StakePool, OCN) == 0 && b.supply == map[]
    requires forall k: Key :: k.1 != OCN || k.0 == PoolAddr(PAIR) ==> At(b.balances, k) == 0
    requires coinbase.body.sender == Network && coinbase.body.recipient == MINER && coinbase.body.op.None?
    requires ApplyAll(b, [coinbase] + Funding()) == Done(result)
    ensures Funded(result)
  {
    var paid := Credit(b, MINER, OCN, coinbase.body.amount);
    ApplyCons(b, coinbase, Funding());
    var mid, after := FundingEffect(paid);
    ApplyCons(paid, Funding()[0], [Funding()[1]]);
    ApplyCons(mid, Funding()[1], []);
    assert [Funding()[0]] + [Funding()[1]] == Funding() && [Funding()[1]] + [] == [Funding()[1]];
  }

  lemma FundedEarly(n: NodeState, next: NodeState, block: ChainBlock)
    requires n.chain != [] && Untouched(n) && next.chain == n.chain + [block] && block.txs == TemplateTxs(n, MINER, Funding(), 0)
    ensures EarlyOnly(next.chain)
  {
  }

  // --- Blocks of the funded node ---

  lemma {:induction false} SumOfCoinbases(first: Tx, second: Tx, ops: seq<Tx>)
    requires first.body.sender == Network && second.body.sender == Network
    requires forall i :: 0 <= i < |ops| ==> ops[i].body.sender != Network
    ensures CoinbaseSum([first, second] + ops) == first.body.amount + second.body.amount
    ensures Fees([first, second] + ops) == Fees(ops)
  {
    NoCoinbases(ops);
    assert [first, second] + ops == [first] + ([second] + ops);
    CoinbaseFirst(second, ops);
    CoinbaseFirst(first, [second] + ops);
  }

  /** Ops that are signed at time 1, so that none of them is on the chain. */
  ghost predicate FreshOps(ops: seq<Tx>) {
    && (forall i :: 0 <= i < |ops| ==> TxValid(ops[i]) && ops[i].body.sender.User? && ops[i].body.time == 1)
    && (forall i, j :: 0 <= i < j < |ops| ==> ops[i].body != ops[j].body)
  }

  function TwoPaid(n: NodeState, pool: Addr, amount: int, ops: seq<Tx>): seq<Tx>
    requires n.chain != []
  {
    [Coinbase(MINER, NextReward(n) + Fees(ops) - amount), Coinbase(pool, amount)] + ops
  }

  lemma NotOnChain(chain: seq<ChainBlock>, body: TxBody)
    requires EarlyOnly(chain) && body.sender != Network && body.time == 1
    ensures !Confirmed(chain, body)
  {
  }

  lemma TwoPaidFresh(n: NodeState, pool: Addr, amount: int, ops: seq<Tx>)
    requires n.chain != [] && EarlyOnly(n.chain) && FreshOps(ops)
    ensures var txs := TwoPaid(n, pool, amount, ops); NoRepeats(txs) && NoReplays(n.chain, txs) && AllTxValid(txs)
  {
    var txs := TwoPaid(n, pool, amount, ops);
    assert forall i :: 2 <= i < |txs| ==> txs[i] == ops[i - 2];
    forall i | 0 <= i < |txs| && txs[i].body.sender != Network ensures !Confirmed(n.chain, txs[i].body) {
      NotOnChain(n.chain, txs[i].body);
    }
  }

  lemma TwoPaidReward(n: NodeState, pool: Addr, amount: int, ops: seq<Tx>, timestamp: int)
    requires n.chain != [] && FreshOps(ops)
    ensures RewardOk(BlockOf(n, TwoPaid(n, pool, amount, ops), timestamp, 0))
  {
    var txs := TwoPaid(n, pool, amount, ops);
    SumOfCoinbases(txs[0], txs[1], ops);
    assert txs[0].body.sender == Network;
  }

  lemma OpsAfterCoinbases(b: Books, first: Tx, second: Tx, ops: seq<Tx>)
    requires first.body.op.None? && second.body.op.None?
    ensures OpsPass(b, [first, second] + ops) == OpsPass(b, ops)
  {
    assert ([first, second] + ops)[1..] == [second] + ops;
    assert ([second] + ops)[1..] == ops;
  }

  /** A block that pays a pool beside ops of the same block passes every check when the ops pass alone. */
  lemma TwoPaidAdmissible(n: NodeState, events: seq<Event>, pool: Addr, amount: int, ops: seq<Tx>)
    requires SoFar(n, events, 91) && EarlyOnly(n.chain) && FreshOps(ops) && OpsPass(n.books, ops)
    ensures Admissible(EASY, 0, n, BlockOf(n, TwoPaid(n, pool, amount, ops), 91, 0))
  {
    var txs := TwoPaid(n, pool, amount, ops);
    IndexIsPosition(EASY, 0, n.chain, 90);
    NextTick(n.chain);
    TwoPaidFresh(n, pool, amount, ops);
    TwoPaidReward(n, pool, amount, ops, 91);
    OpsAfterCoinbases(n.books, txs[0], txs[1], ops);
    ExtendsIff(EASY, 0, n, txs, 91, 0);
  }

  lemma ApplyTwoPaid(n: NodeState, pool: Addr, amount: int, ops: seq<Tx>)
    requires n.chain != []
    ensures ApplyAll(n.books, TwoPaid(n, pool, amount, ops))
      == ApplyAll(Credit(Credit(n.books, MINER, OCN, NextReward(n) + Fees(ops) - amount), pool, OCN, amount), ops)
  {
    var txs := TwoPaid(n, pool, amount, ops);
    assert txs == [txs[0]] + ([txs[1]] + ops);
    ApplyCons(n.books, txs[0], [txs[1]] + ops);
    ApplyCons(Credit(n.books, MINER, OCN, NextReward(n) + Fees(ops) - amount), txs[1], ops);
  }

  // --- A deposit that mints less than it was checked for ---

  function DepositOps(): seq<Tx> {
    [Signed(HOLDER, StakePool, 100, MIN_FEE, 1, StakeDeposit),
     Signed(HOLDER, User(3), 1990, MIN_FEE, 1, TransferAsset(STOCN))]
  }

  lemma DepositOpsPass(b: Books)
    requires Funded(b)
    ensures OpsPass(b, DepositOps()) && FreshOps(DepositOps())
  {
    var mid := PostDeposit(b, DepositOps()[0].body, 100);
    assert Apply(b, DepositOps()[0].body).books == mid;
    assert Bal(mid, HOLDER, STOCN) == 2000;
    PassTwo(b, mid, DepositOps()[0], DepositOps()[1]);
  }

  lemma DepositOverdraws(b: Books)
    requires Bal(b, StakePool, OCN) == 4000 && At(b.supply, STOCN) == 2000 && Bal(b, HOLDER, STOCN) == 1900
    ensures ApplyAll(b, DepositOps()).Done? && Bal(ApplyAll(b, DepositOps()).books, HOLDER, STOCN) == -40
  {
    var mid := PostDeposit(b, DepositOps()[0].body, 50);
    assert Apply(b, DepositOps()[0].body).books == mid;
    assert Bal(mid, HOLDER, STOCN) == 1950;
    ApplyCons(b, DepositOps()[0], [DepositOps()[1]]);
    ApplyCons(mid, DepositOps()[1], []);
    assert [DepositOps()[0]] + [DepositOps()[1]] == DepositOps() && [DepositOps()[1]] + [] == [DepositOps()[1]];
  }

  lemma NotIndependent(n: NodeState, pool: Addr, amount: int, ops: seq<Tx>)
    requires n.chain != [] && ops != [] && PoolRead(ops[0].body) == Some(pool)
    ensures !Independent(TwoPaid(n, pool, amount, ops))
  {
    var txs := TwoPaid(n, pool, amount, ops);
    assert txs[1].body.recipient in Paid(txs) && txs[2] == ops[0];
    assert !ReadsOutside(Paid(txs), txs[2].body);
  }

  /** What accepting an admissible block does, by how its second pass ends. */
  lemma Accepting(p: Primitives, now: int, n: NodeState, block: ChainBlock)
    requires n.chain != [] && Admissible(p, now, n, block)
    ensures var r := Accept(p, now, n, block);
      && r.0.chain == n.chain + [block] && r.0.books == ApplyAll(n.books, block.txs).books
      && r.1 == if ApplyAll(n.books, block.txs).Done? then Accepted else RaisedAfterAppend
  {
  }

  lemma DepositOutcome(n: NodeState)
    requires n.chain != [] && Funded(n.books)
    ensures var txs := TwoPaid(n, StakePool, 2000, DepositOps());
      ApplyAll(n.books, txs).Done? && Bal(ApplyAll(n.books, txs).books, HOLDER, STOCN) == -40
  {
    var ops := DepositOps();
    ApplyTwoPaid(n, StakePool, 2000, ops);
    var paid := PoolDoubled(n.books, NextReward(n) + Fees(ops) - 2000);
    DepositOverdraws(paid);
  }

  lemma PoolDoubled(b: Books, reward: int) returns (paid: Books)
    requires Funded(b)
    ensures paid == Credit(Credit(b, MINER, OCN, reward), StakePool, OCN, 2000)
    ensures Bal(paid, StakePool, OCN) == 4000 && At(paid.supply, STOCN) == 2000 && Bal(paid, HOLDER, STOCN) == 1900
  {
    paid := Credit(Credit(b, MINER, OCN, reward), StakePool, OCN, 2000);
  }

  /** On a node reached by a run: a coinbase of 2000 to the stake pool doubles the rate between the check and the
      second pass, so the deposit of 100 mints 50.  The block is accepted, and a stOCN balance is negative. */
  lemma DependentDepositAccepted() returns (n: NodeState, events: seq<Event>, block: ChainBlock)
    ensures SoFar(n, events, 91) && !Independent(block.txs) && NoClawback(block.txs)
    ensures Accept(EASY, 0, n, block).1 == Accepted
    ensures Bal(Accept(EASY, 0, n, block).0.books, HOLDER, STOCN) == -40
  {
    n, events := FundedChain();
    block := BlockOf(n, TwoPaid(n, StakePool, 2000, DepositOps()), 91, 0);
    DepositBlock(n, events);
  }

  lemma DepositBlock(n: NodeState, events: seq<Event>)
    requires SoFar(n, events, 91) && Funded(n.books) && EarlyOnly(n.chain)
    ensures var block := BlockOf(n, TwoPaid(n, StakePool, 2000, DepositOps()), 91, 0);
      && !Independent(block.txs) && NoClawback(block.txs)
      && Accept(EASY, 0, n, block).1 == Accepted
      && Bal(Accept(EASY, 0, n, block).0.books, HOLDER, STOCN) == -40
  {
    var ops := DepositOps();
    DepositOpsPass(n.books);
    TwoPaidAdmissible(n, events, StakePool, 2000, ops);
    DepositOutcome(n);
    Accepting(EASY, 0, n, BlockOf(n, TwoPaid(n, StakePool, 2000, ops), 91, 0));
    NotIndependent(n, StakePool, 2000, ops);
    PoolPaid(n, StakePool, 2000, ops);
  }

  lemma PoolPaid(n: NodeState, pool: Addr, amount: int, ops: seq<Tx>)
    requires n.chain != [] && amount >= 0 && FreshOps(ops)
    ensures NoClawback(TwoPaid(n, pool, amount, ops))
  {
    var txs := TwoPaid(n, pool, amount, ops);
    assert forall i :: 2 <= i < |txs| ==> txs[i] == ops[i - 2];
  }

  // --- A swap that is refused after its block was appended ---

  function SwapOps(): seq<Tx> {
    [Signed(HOLDER, HOLDER, 0, MIN_FEE, 1, Swap(PAIR, OCN, 10, 9))]
  }

  lemma SwapOpsPass(b: Books)
    requires Funded(b)
    ensures OpsPass(b, SwapOps()) && FreshOps(SwapOps())
  {
    var t := SwapOps()[0].body;
    assert SwapOut(100, 100, 10) == 9;
    var after := PostSwap(b, t, PAIR, OCN, 10, 9);
    assert Apply(b, t).books == after;
    assert SwapOps()[1..] == [];
    assert NoneNegative(after, Apply(b, t).debited);
  }

  lemma SwapRefused(b: Books)
    requires Bal(b, PoolAddr(PAIR), OCN) == 200 && Bal(b, PoolAddr(PAIR), STOCN) == 100
    ensures ApplyAll(b, SwapOps()) == Stopped(b)
  {
    assert SwapOut(200, 100, 10) == 5;
    assert Apply(b, SwapOps()[0].body) == Slippage;
  }

  function SwapBlock(n: NodeState): ChainBlock
    requires n.chain != []
  {
    BlockOf(n, TwoPaid(n, PoolAddr(PAIR), 100, SwapOps()), 91, 0)
  }

  /** The two coinbases, and nothing of the swap. */
  function PaidOnly(n: NodeState): Books
    requires n.chain != []
  {
    Credit(Credit(n.books, MINER, OCN, NextReward(n) + MIN_FEE - 100), PoolAddr(PAIR), OCN, 100)
  }

  lemma SwapOutcome(n: NodeState)
    requires n.chain != [] && Funded(n.books)
    ensures ApplyAll(n.books, SwapBlock(n).txs) == Stopped(PaidOnly(n))
  {
    assert Fees(SwapOps()) == MIN_FEE by {
      assert SwapOps()[1..] == [];
    }
    ApplyTwoPaid(n, PoolAddr(PAIR), 100, SwapOps());
    SwapRefused(PaidOnly(n));
  }

  lemma SwapBlockRaises(n: NodeState, events: seq<Event>)
    requires SoFar(n, events, 91) && Funded(n.books) && EarlyOnly(n.chain)
    ensures !Independent(SwapBlock(n).txs) && NoClawback(SwapBlock(n).txs)
    ensures var r := Accept(EASY, 0, n, SwapBlock(n));
      r.1 == RaisedAfterAppend && r.0.chain == n.chain + [SwapBlock(n)] && r.0.books == PaidOnly(n)
  {
    SwapOpsPass(n.books);
    TwoPaidAdmissible(n, events, PoolAddr(PAIR), 100, SwapOps());
    SwapOutcome(n);
    Accepting(EASY, 0, n, SwapBlock(n));
    NotIndependent(n, PoolAddr(PAIR), 100, SwapOps());
    PoolPaid(n, PoolAddr(PAIR), 100, SwapOps());
  }

  /** On a node reached by a run: the pool is paid between the check and the second pass, which refuses the swap
      although the block is already on the chain; validating that chain from scratch raises as well. */
  lemma DependentSwapRaises() returns (n: NodeState, events: seq<Event>, block: ChainBlock)
    ensures SoFar(n, events, 91) && !Independent(block.txs) && NoClawback(block.txs)
    ensures Accept(EASY, 0, n, block).1 == RaisedAfterAppend
    ensures Judge(EASY, 0, n.chain + [block]).Raises?
  {
    n, events := FundedChain();
    block := SwapBlock(n);
    SwapBlockRaises(n, events);
    AcceptIffScratchValid(EASY, 0, n, block);
  }

  // --- What that does to the supply ---

  /** A run in which a block raises: every other asset still adds up, but OCN does not, since the refused swap's fee was
      paid out and never collected. */
  lemma RaisedRunBreaksCoins() returns (events: seq<Event>)
    ensures forall i :: 0 <= i < |events| ==> By(0, events[i]) && Constructed(events[i])
    ensures DamagedAfter(EASY, NewNode(), events, false)
    ensures Balanced(After(EASY, NewNode(), events).books) && !CoinsAddUp(After(EASY, NewNode(), events))
  {
    var n, earlier := FundedChain();
    events := RaisedRun(n, earlier);
    SupplyOfValidChain(EASY, 0, n.chain);
    CoinsOff(n, After(EASY, NewNode(), events));
    NewNodeHealthy(EASY, 0);
    AssetsAddUp(EASY, NewNode(), events);
  }

  lemma RaisedRun(n: NodeState, earlier: seq<Event>) returns (events: seq<Event>)
    requires SoFar(n, earlier, 91) && Funded(n.books) && EarlyOnly(n.chain)
    ensures forall i :: 0 <= i < |events| ==> By(0, events[i]) && Constructed(events[i])
    ensures DamagedAfter(EASY, NewNode(), events, false)
    ensures After(EASY, NewNode(), events).chain == n.chain + [SwapBlock(n)]
    ensures After(EASY, NewNode(), events).books == PaidOnly(n)
  {
    SwapBlockRaises(n, earlier);
    events := earlier + [Submit(SwapBlock(n), 0)];
    SubmitAfter(n, earlier, SwapBlock(n));
  }

  lemma CoinsOff(n: NodeState, next: NodeState)
    requires n.chain != [] && |n.chain| == 91 && CoinsAddUp(n)
    requires next.chain == n.chain + [SwapBlock(n)] && next.books == PaidOnly(n)
    ensures !CoinsAddUp(next)
  {
    var first := NextReward(n) + MIN_FEE - 100;
    CreditSum(n.books, MINER, OCN, first, OCN);
    CreditSum(Credit(n.books, MINER, OCN, first), PoolAddr(PAIR), OCN, 100, OCN);
    InitOf(n.chain, SwapBlock(n));
    assert Subsidy(SwapBlock(n)) == NextReward(n);
    assert Subsidies(next.chain) == Subsidies(n.chain) + Subsidy(SwapBlock(n));
  }

  // --- A coinbase that takes from a pool ---

  /** Pays one address the reward and what another coinbase takes from the stake pool, one unit more than it has. */
  function Clawback(n: NodeState): seq<Tx>
    requires n.chain != []
  {
    var taken := Bal(n.books, StakePool, OCN) + 1;
    [Coinbase(MINER, NextReward(n) + taken), Coinbase(StakePool, -taken)]
  }

  /** Every healthy node, at every height, accepts such a block once it is solved: only the sum of the coinbases is
      checked.  The block is independent and carries no op, and the stake pool ends in debt. */
  lemma NegativeCoinbaseAccepted(p: Primitives, now: int, limit: int, n: NodeState, timestamp: int, nonce: int)
    requires Healthy(p, limit, n) && now <= limit && n.chain != []
    requires Solved(p, now, n, BlockOf(n, Clawback(n), timestamp, nonce))
    ensures var block := BlockOf(n, Clawback(n), timestamp, nonce);
      && Independent(block.txs) && !NoClawback(block.txs)
      && Accept(p, now, n, block).1 == Accepted
      && Bal(Accept(p, now, n, block).0.books, StakePool, OCN) == -1
  {
    assert Protected((StakePool, OCN));
    ClawbackAdmissible(p, now, n, timestamp, nonce);
    ClawbackEffect(n);
    Accepting(p, now, n, BlockOf(n, Clawback(n), timestamp, nonce));
  }

  lemma ClawbackAdmissible(p: Primitives, now: int, n: NodeState, timestamp: int, nonce: int)
    requires n.chain != [] && Bal(n.books, StakePool, OCN) >= 0
    requires Solved(p, now, n, BlockOf(n, Clawback(n), timestamp, nonce))
    ensures Admissible(p, now, n, BlockOf(n, Clawback(n), timestamp, nonce))
    ensures Independent(Clawback(n)) && !NoClawback(Clawback(n))
  {
    var txs := Clawback(n);
    SumOfCoinbases(txs[0], txs[1], []);
    assert txs + [] == txs && txs[0].body.sender == Network && txs[1].body.sender == Network;
    OpsAfterCoinbases(n.books, txs[0], txs[1], []);
    ExtendsIff(p, now, n, txs, timestamp, nonce);
  }

  lemma ClawbackEffect(n: NodeState)
    requires n.chain != []
    ensures ApplyAll(n.books, Clawback(n)).Done? && Bal(ApplyAll(n.books, Clawback(n)).books, StakePool, OCN) == -1
  {
    var txs := Clawback(n);
    ApplyCons(n.books, txs[0], [txs[1]]);
    ApplyCons(Apply(n.books, txs[0].body).books, txs[1], []);
    assert [txs[0]] + [txs[1]] == txs && [txs[1]] + [] == [txs[1]];
  }

  // --- Fee order against arrival order ---

  /** A deposit, and a transfer of what it mints that pays a higher fee. */
  function Pending(): seq<Tx> {
    [Signed(HOLDER, StakePool, 100, MIN_FEE, 1, StakeDeposit),
     Signed(HOLDER, User(3), 1990, 2 * MIN_FEE, 1, TransferAsset(STOCN))]
  }

  lemma PendingInArrivalOrder(b: Books)
    requires Funded(b)
    ensures OpsPass(b, Pending())
  {
    var mid := PostDeposit(b, Pending()[0].body, 100);
    assert Apply(b, Pending()[0].body).books == mid;
    assert Bal(mid, HOLDER, STOCN) == 2000;
    PassTwo(b, mid, Pending()[0], Pending()[1]);
  }

  lemma PendingInFeeOrder(b: Books)
    requires Funded(b)
    ensures ByFee(Pending()) == [Pending()[1], Pending()[0]] && !OpsPass(b, ByFee(Pending()))
  {
    assert Pending()[1..] == [Pending()[1]] && [Pending()[1]][1..] == [];
    assert ByFee([Pending()[1]]) == [Pending()[1]];
    var r := Apply(b, Pending()[1].body);
    assert At(r.books.balances, r.debited[1]) == 1900 - 1990;
  }

  /** Choosing the highest fees first can waste a miner's work: a fresh mempool whose transactions pass in the order
      they arrived, and no solved template of which the node accepts. */
  lemma FeeOrderRefused(miner: Addr, coinbaseTime: int, timestamp: int, nonce: int)
    returns (n: NodeState, events: seq<Event>)
    ensures exists base: NodeState :: SoFar(base, events, 91) && n == base.(mempool := Pending())
    ensures n.chain != [] && PendingFresh(n) && OpsPass(n.books, n.mempool)
    ensures !Admissible(EASY, 0, n, Candidate(n, miner, Selected(n.mempool, 50), coinbaseTime, timestamp, nonce))
  {
    var base;
    base, events := FundedChain();
    n := base.(mempool := Pending());
    PendingInArrivalOrder(n.books);
    PendingInFeeOrder(n.books);
    PendingIsFresh(n);
    SelectedTemplateIff(EASY, 0, n, miner, 50, coinbaseTime, timestamp, nonce);
  }

  lemma PendingIsFresh(n: NodeState)
    requires EarlyOnly(n.chain) && n.mempool == Pending()
    ensures PendingFresh(n)
  {
    forall i | 0 <= i < |n.mempool| ensures !Confirmed(n.chain, n.mempool[i].body) {
      NotOnChain(n.chain, n.mempool[i].body);
    }
  }
}
