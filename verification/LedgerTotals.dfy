/** Conservation: how each transaction changes the total of every asset. */
module LedgerTotals {
  import opened Wrappers
  import opened LedgerTypes
  import opened Ledger

  /** The sum of all balances of an asset. */
  ghost function Total(m: map<Key, int>, x: Asset): int
    decreases |m|
  {
    if m == map[] then 0
    else
      var k :| k in m;
      Part(m, k, x) + Total(m - {k}, x)
  }

  function Part(m: map<Key, int>, k: Key, x: Asset): int {
    if k in m && k.1 == x then m[k] else 0
  }

  lemma {:induction false} TotalWithout(m: map<Key, int>, k: Key, x: Asset)
    requires k in m
    ensures Total(m, x) == Part(m, k, x) + Total(m - {k}, x)
    decreases |m|
  {
    var first :| first in m && Total(m, x) == Part(m, first, x) + Total(m - {first}, x);
    if first != k {
      var n, p := m - {first}, m - {k};
      TotalWithout(n, k, x);
      assert first in p;
      TotalWithout(p, first, x);
      assert n - {k} == p - {first};
      assert Part(n, k, x) == Part(m, k, x);
      assert Part(p, first, x) == Part(m, first, x);
    }
  }

  lemma TotalUpdate(m: map<Key, int>, k: Key, v: int, x: Asset)
    ensures Total(m[k := v], x) == Total(m, x) - Part(m, k, x) + if k.1 == x then v else 0
  {
    TotalWithout(m[k := v], k, x);
    if k in m {
      TotalWithout(m, k, x);
      assert m[k := v] - {k} == m - {k};
    } else {
      assert m[k := v] - {k} == m;
    }
  }

  /** Total of an asset on the books. */
  ghost function Sum(b: Books, x: Asset): int {
    Total(b.balances, x)
  }

  lemma CreditSum(b: Books, who: Addr, asset: Asset, amount: int, x: Asset)
    ensures Sum(Credit(b, who, asset, amount), x) == Sum(b, x) + if asset == x then amount else 0
  {
    TotalUpdate(b.balances, (who, asset), At(b.balances, (who, asset)) + amount, x);
  }

  /** Balances of every asset other than OCN add up to its recorded supply. */
  ghost predicate Balanced(b: Books) {
    forall x: Asset :: x != OCN ==> Sum(b, x) == At(b.supply, x)
  }

  /** What a transaction creates or destroys: coinbase amounts are new coins, fees leave circulation until a
      coinbase pays them out. */
  function NewCoins(t: TxBody): int {
    if t.sender == Network then t.amount else -t.fee
  }

  ghost predicate Conserves(b: Books, after: Books, t: TxBody) {
    && Sum(after, OCN) == Sum(b, OCN) + NewCoins(t)
    && forall x: Asset :: x != OCN ==> Sum(after, x) - At(after.supply, x) == Sum(b, x) - At(b.supply, x)
  }

  /** The net effect on Sum(x) - supply(x), or on Sum(OCN), of one credit. */
  ghost function Excess(b: Books, x: Asset): int {
    if x == OCN then Sum(b, x) else Sum(b, x) - At(b.supply, x)
  }

  lemma CreditExcess(b: Books, who: Addr, asset: Asset, amount: int, x: Asset)
    ensures Excess(Credit(b, who, asset, amount), x) == Excess(b, x) + if asset == x then amount else 0
    ensures Credit(b, who, asset, amount).supply == b.supply
  {
    CreditSum(b, who, asset, amount, x);
  }

  lemma MintExcess(b: Books, asset: Asset, amount: int, x: Asset)
    requires asset != OCN
    ensures Excess(Mint(b, asset, amount), x) == Excess(b, x) - if asset == x then amount else 0
  {
  }

  lemma FeeExcess(b: Books, t: TxBody, x: Asset)
    ensures Excess(FeeOnly(b, t), x) == Excess(b, x) - if t.sender != Network && x == OCN then t.fee else 0
  {
    if t.sender != Network {
      CreditExcess(b, t.sender, OCN, -t.fee, x);
    }
  }

  lemma DepositExcess(b: Books, t: TxBody, minted: int, x: Asset)
    requires t.sender != Network
    ensures Excess(PostDeposit(b, t, minted), x) == Excess(b, x) - if x == OCN then t.fee else 0
  {
    var b1 := Credit(b, t.sender, OCN, -(t.amount + t.fee));
    var b2 := Credit(b1, t.recipient, OCN, t.amount);
    CreditExcess(b, t.sender, OCN, -(t.amount + t.fee), x);
    CreditExcess(b1, t.recipient, OCN, t.amount, x);
    CreditExcess(b2, t.sender, STOCN, minted, x);
    MintExcess(Credit(b2, t.sender, STOCN, minted), STOCN, minted, x);
  }

  lemma MoveExcess(b: Books, from: Addr, to: Addr, asset: Asset, amount: int, x: Asset)
    ensures Excess(Credit(Credit(b, from, asset, -amount), to, asset, amount), x) == Excess(b, x)
  {
    CreditExcess(b, from, asset, -amount, x);
    CreditExcess(Credit(b, from, asset, -amount), to, asset, amount, x);
  }

  lemma WithdrawExcess(b: Books, t: TxBody, redeemed: int, x: Asset)
    requires t.sender != Network
    ensures Excess(PostWithdraw(b, t, redeemed), x) == Excess(b, x) - if x == OCN then t.fee else 0
  {
    BurnExcess(b, t, STOCN, t.amount, x);
    MoveExcess(FeeOnly(Mint(Credit(b, t.sender, STOCN, -t.amount), STOCN, -t.amount), t), StakePool, t.recipient, OCN,
               redeemed, x);
  }

  lemma AddExcess(b: Books, t: TxBody, k: PoolKey, amountA: int, amountB: int, minted: int, x: Asset)
    requires t.sender != Network
    ensures Excess(PostAdd(b, t, k, amountA, amountB, minted), x) == Excess(b, x) - if x == OCN then t.fee else 0
  {
    var pool, a, z, lp := PoolAddr(k), Plain(k.a), Plain(k.b), Lp(k);
    var b0 := FeeOnly(b, t);
    var b1 := Credit(b0, t.sender, a, -amountA);
    var b2 := Credit(b1, t.sender, z, -amountB);
    var b3 := Credit(b2, pool, a, amountA);
    var b4 := Credit(b3, pool, z, amountB);
    FeeExcess(b, t, x);
    CreditExcess(b0, t.sender, a, -amountA, x);
    CreditExcess(b1, t.sender, z, -amountB, x);
    CreditExcess(b2, pool, a, amountA, x);
    CreditExcess(b3, pool, z, amountB, x);
    CreditExcess(b4, t.sender, lp, minted, x);
    MintExcess(Credit(b4, t.sender, lp, minted), lp, minted, x);
  }

  lemma SwapExcess(b: Books, t: TxBody, k: PoolKey, assetIn: Asset, amountIn: int, out: int, x: Asset)
    requires t.sender != Network
    ensures Excess(PostSwap(b, t, k, assetIn, amountIn, out), x) == Excess(b, x) - if x == OCN then t.fee else 0
  {
    var pool, assetOut := PoolAddr(k), OtherSide(k, assetIn);
    var b0 := FeeOnly(b, t);
    var b1 := Credit(b0, t.sender, assetIn, -amountIn);
    var b2 := Credit(b1, pool, assetIn, amountIn);
    var b3 := Credit(b2, pool, assetOut, -out);
    FeeExcess(b, t, x);
    CreditExcess(b0, t.sender, assetIn, -amountIn, x);
    CreditExcess(b1, pool, assetIn, amountIn, x);
    CreditExcess(b2, pool, assetOut, -out, x);
    CreditExcess(b3, t.recipient, assetOut, out, x);
  }

  lemma BurnExcess(b: Books, t: TxBody, lp: Asset, shares: int, x: Asset)
    requires t.sender != Network && lp != OCN
    ensures Excess(FeeOnly(Mint(Credit(b, t.sender, lp, -shares), lp, -shares), t), x)
      == Excess(b, x) - if x == OCN then t.fee else 0
  {
    var b0 := Credit(b, t.sender, lp, -shares);
    CreditExcess(b, t.sender, lp, -shares, x);
    MintExcess(b0, lp, -shares, x);
    FeeExcess(Mint(b0, lp, -shares), t, x);
  }

  lemma RemoveExcess(b: Books, t: TxBody, k: PoolKey, shares: int, outA: int, outB: int, x: Asset)
    requires t.sender != Network
    ensures Excess(PostRemove(b, t, k, shares, outA, outB), x) == Excess(b, x) - if x == OCN then t.fee else 0
  {
    var pool, a, z, lp := PoolAddr(k), Plain(k.a), Plain(k.b), Lp(k);
    var b2 := FeeOnly(Mint(Credit(b, t.sender, lp, -shares), lp, -shares), t);
    BurnExcess(b, t, lp, shares, x);
    PayOutExcess(b2, pool, t.recipient, a, outA, z, outB, x);
  }

  lemma PayOutExcess(b: Books, pool: Addr, to: Addr, a: Asset, outA: int, z: Asset, outB: int, x: Asset)
    ensures Excess(Credit(Credit(Credit(Credit(b, pool, a, -outA), pool, z, -outB), to, a, outA), to, z, outB), x)
      == Excess(b, x)
  {
    var b3 := Credit(b, pool, a, -outA);
    var b4 := Credit(b3, pool, z, -outB);
    var b5 := Credit(b4, to, a, outA);
    CreditExcess(b, pool, a, -outA, x);
    CreditExcess(b3, pool, z, -outB, x);
    CreditExcess(b4, to, a, outA, x);
    CreditExcess(b5, to, z, outB, x);
  }

  lemma TransferExcess(b: Books, t: TxBody, asset: Asset, x: Asset)
    requires t.sender == Network ==> asset == OCN
    ensures Excess(Transfer(b, t, asset).books, x) == Excess(b, x) + if x == OCN then NewCoins(t) else 0
  {
    if t.sender == Network {
      CreditExcess(b, t.recipient, asset, t.amount, x);
    } else if asset == OCN {
      CreditExcess(b, t.sender, OCN, -(t.amount + t.fee), x);
      CreditExcess(Credit(b, t.sender, OCN, -(t.amount + t.fee)), t.recipient, OCN, t.amount, x);
    } else {
      var b0 := FeeOnly(b, t);
      var b1 := Credit(b0, t.sender, asset, -t.amount);
      FeeExcess(b, t, x);
      CreditExcess(b0, t.sender, asset, -t.amount, x);
      CreditExcess(b1, t.recipient, asset, t.amount, x);
    }
  }

  lemma ApplyExcess(b: Books, t: TxBody, x: Asset)
    requires t.sender == Network ==> t.op.None?
    requires Apply(b, t).Applied?
    ensures Excess(Apply(b, t).books, x) == Excess(b, x) + if x == OCN then NewCoins(t) else 0
  {
    match t.op
    case Some(StakeDeposit) =>
      DepositExcess(b, t, MintedStake(Bal(b, StakePool, OCN), At(b.supply, STOCN), t.amount), x);
    case Some(StakeWithdraw) =>
      WithdrawExcess(b, t, RedeemedStake(Bal(b, StakePool, OCN), At(b.supply, STOCN), t.amount), x);
    case Some(AddLiquidity(k, amountA, amountB)) =>
      var minted := MintedShares(Bal(b, PoolAddr(k), Plain(k.a)), Bal(b, PoolAddr(k), Plain(k.b)), At(b.supply, Lp(k)),
                                 amountA, amountB);
      AddExcess(b, t, k, amountA, amountB, minted, x);
    case Some(Swap(k, assetIn, amountIn, minOut)) =>
      var out := SwapOut(Bal(b, PoolAddr(k), assetIn), Bal(b, PoolAddr(k), OtherSide(k, assetIn)), amountIn);
      SwapExcess(b, t, k, assetIn, amountIn, out, x);
    case Some(RemoveLiquidity(k, shares)) =>
      var supply := At(b.supply, Lp(k));
      RemoveExcess(b, t, k, shares, ShareOut(Bal(b, PoolAddr(k), Plain(k.a)), supply, shares),
                   ShareOut(Bal(b, PoolAddr(k), Plain(k.b)), supply, shares), x);
    case Some(TransferAsset(asset)) => TransferExcess(b, t, asset, x);
    case Some(Malformed(_)) => TransferExcess(b, t, OCN, x);
    case None => TransferExcess(b, t, OCN, x);
  }

  /** Every kind of transaction, valid or not by its op's own rules, conserves every asset: minted and burned
      shares are matched by the supply, and OCN changes by the coinbase amount or the fee alone. */
  lemma ApplyConserves(b: Books, t: TxBody)
    requires t.sender == Network ==> t.op.None?
    requires Apply(b, t).Applied?
    ensures Conserves(b, Apply(b, t).books, t)
  {
    var after := Apply(b, t).books;
    ApplyExcess(b, t, OCN);
    forall x: Asset | x != OCN ensures Sum(after, x) - At(after.supply, x) == Sum(b, x) - At(b.supply, x) {
      ApplyExcess(b, t, x);
    }
  }

  lemma ConservesBalanced(b: Books, after: Books, t: TxBody)
    requires Balanced(b) && Conserves(b, after, t)
    ensures Balanced(after)
  {
  }

  function NewCoinsOf(txs: seq<Tx>): int {
    if txs == [] then 0 else NewCoins(txs[0].body) + NewCoinsOf(txs[1..])
  }

  /** A whole block keeps the books balanced and changes the OCN total by its coinbases less its fees. */
  lemma {:induction false} BlockConserves(b: Books, txs: seq<Tx>)
    requires Balanced(b) && ApplyAll(b, txs).Done?
    requires forall i :: 0 <= i < |txs| ==> TxValid(txs[i])
    ensures Balanced(ApplyAll(b, txs).books)
    ensures Sum(ApplyAll(b, txs).books, OCN) == Sum(b, OCN) + NewCoinsOf(txs)
    decreases txs
  {
    if txs != [] {
      assert TxValid(txs[0]);
      ApplyConserves(b, txs[0].body);
      ConservesBalanced(b, Apply(b, txs[0].body).books, txs[0].body);
      BlockConserves(Apply(b, txs[0].body).books, txs[1..]);
    }
  }

  lemma EmptyBalanced()
    ensures Balanced(EMPTY_BOOKS) && Sum(EMPTY_BOOKS, OCN) == 0
  {
  }

  lemma {:induction false} TotalNonNegative(m: map<Key, int>, x: Asset)
    requires forall k :: k in m && k.1 == x ==> m[k] >= 0
    ensures Total(m, x) >= 0
    decreases |m|
  {
    if m != map[] {
      var first :| first in m && Total(m, x) == Part(m, first, x) + Total(m - {first}, x);
      var rest := m - {first};
      TotalNonNegative(rest, x);
      assert Part(m, first, x) >= 0;
      assert Total(rest, x) >= 0;
    }
  }

  /** With no negative balance of an asset, each holder has at most the total. */
  lemma HoldingAtMostTotal(m: map<Key, int>, who: Addr, x: Asset)
    requires forall k :: k in m && k.1 == x ==> m[k] >= 0
    ensures 0 <= At(m, (who, x)) <= Total(m, x)
  {
    if (who, x) in m {
      TotalWithout(m, (who, x), x);
      TotalNonNegative(m - {(who, x)}, x);
    } else {
      TotalNonNegative(m, x);
    }
  }
}
