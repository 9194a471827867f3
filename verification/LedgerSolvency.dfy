/** Solvency: why checking the ops of a block on a scratch copy keeps pools, shares and supplies non-negative
    in the real books, and on which blocks it does. */
module LedgerSolvency {
  import opened Wrappers
  import opened LedgerTypes
  import opened Rounding
  import opened Ledger
  import opened LedgerTotals

  /** The balances that must never go negative: every asset other than OCN, and the OCN of keyless pools.
      The OCN of ordinary accounts is checked only when a transaction enters the mempool. */
  predicate Protected(k: Key) {
    k.1 != OCN || k.0.Keyless()
  }

  ghost predicate Solvent(b: Books) {
    forall k: Key :: Protected(k) ==> At(b.balances, k) >= 0
  }

  predicate ProtectedNonNegative(b: Books, keys: seq<Key>) {
    forall i :: 0 <= i < |keys| && Protected(keys[i]) ==> At(b.balances, keys[i]) >= 0
  }

  lemma SuppliesNonNegative(b: Books, x: Asset)
    requires Solvent(b) && Balanced(b) && x != OCN
    ensures At(b.supply, x) >= 0
  {
    forall k | k in b.balances && k.1 == x ensures b.balances[k] >= 0 {
      assert At(b.balances, k) >= 0;
    }
    TotalNonNegative(b.balances, x);
  }

  lemma HoldingAtMostSupply(b: Books, who: Addr, x: Asset)
    requires Solvent(b) && Balanced(b) && x != OCN
    ensures Bal(b, who, x) <= At(b.supply, x)
  {
    forall k | k in b.balances && k.1 == x ensures b.balances[k] >= 0 {
      assert At(b.balances, k) >= 0;
    }
    HoldingAtMostTotal(b.balances, who, x);
  }

  // --- Computed amounts are in range ---

  lemma MintedStakeNonNegative(pool: int, supply: int, amount: int)
    requires amount >= 0
    ensures MintedStake(pool, supply, amount) >= 0
  {
    if supply > 0 && pool > 0 {
      MulOrder(0, amount, supply);
      RoundAtLeast(amount * supply, pool, 0);
    }
  }

  /** Redeeming no more than the supply pays out no more than the pool holds. */
  lemma RedeemedWithinPool(pool: int, supply: int, amount: int)
    requires 0 < amount <= supply && pool >= 0
    ensures RedeemedStake(pool, supply, amount) <= pool
  {
    MulOrder(amount, supply, pool);
    RoundAtMost(amount * pool, supply, pool);
  }

  lemma MintedSharesNonNegative(reserveA: int, reserveB: int, supply: int, amountA: int, amountB: int)
    requires amountA > 0 && amountB > 0
    ensures MintedShares(reserveA, reserveB, supply, amountA, amountB) >= 0
  {
    if supply > 0 && reserveA > 0 && reserveB > 0 {
      MulOrder(0, amountA, supply);
      MulOrder(0, amountB, supply);
      RoundAtLeast(amountA * supply, reserveA, 0);
      RoundAtLeast(amountB * supply, reserveB, 0);
    }
  }

  lemma SwapOutNonNegative(reserveIn: int, reserveOut: int, amountIn: int)
    requires reserveIn >= 0 && reserveOut >= 0 && amountIn > 0
    ensures SwapOut(reserveIn, reserveOut, amountIn) >= 0
  {
    var afterFee := amountIn * FEE_NUMERATOR;
    MulOrder(0, reserveOut, afterFee);
    RoundAtLeast(afterFee * reserveOut, reserveIn * FEE_DENOMINATOR + afterFee, 0);
  }

  lemma ShareOutNonNegative(reserve: int, supply: int, shares: int)
    requires reserve >= 0 && shares > 0
    ensures ShareOut(reserve, supply, shares) >= 0
  {
    if supply > 0 {
      MulOrder(0, reserve, shares);
      RoundAtLeast(reserve * shares, supply, 0);
    }
  }

  // --- Each op keeps the books solvent ---

  lemma DepositSolvent(b: Books, t: TxBody, minted: int)
    requires Solvent(b) && t.sender.User? && t.recipient == StakePool && t.amount > 0 && minted >= 0
    ensures Solvent(PostDeposit(b, t, minted))
  {
  }

  lemma WithdrawSolvent(b: Books, t: TxBody, redeemed: int)
    requires Solvent(b) && t.sender.User? && t.recipient == t.sender
    requires redeemed <= Bal(b, StakePool, OCN) && Bal(b, t.sender, STOCN) >= t.amount
    ensures Solvent(PostWithdraw(b, t, redeemed))
  {
  }

  lemma AddSolvent(b: Books, t: TxBody, k: PoolKey, amountA: int, amountB: int, minted: int)
    requires Solvent(b) && t.sender.User? && CanonicalPool(k) && amountA > 0 && amountB > 0 && minted >= 0
    requires var after := PostAdd(b, t, k, amountA, amountB, minted);
      ProtectedNonNegative(after, [(t.sender, OCN), (t.sender, Plain(k.a)), (t.sender, Plain(k.b))])
    ensures Solvent(PostAdd(b, t, k, amountA, amountB, minted))
  {
    var after := PostAdd(b, t, k, amountA, amountB, minted);
    var keys: seq<Key> := [(t.sender, OCN), (t.sender, Plain(k.a)), (t.sender, Plain(k.b))];
    assert Protected(keys[1]) ==> At(after.balances, keys[1]) >= 0;
    assert Protected(keys[2]) ==> At(after.balances, keys[2]) >= 0;
  }

  lemma SwapSolvent(b: Books, t: TxBody, k: PoolKey, assetIn: Asset, amountIn: int, out: int)
    requires Solvent(b) && t.sender.User? && t.recipient == t.sender && CanonicalPool(k)
    requires (assetIn == Plain(k.a) || assetIn == Plain(k.b)) && amountIn > 0 && out >= 0
    requires var after := PostSwap(b, t, k, assetIn, amountIn, out);
      ProtectedNonNegative(after, [(t.sender, OCN), (t.sender, assetIn), (PoolAddr(k), OtherSide(k, assetIn))])
    ensures Solvent(PostSwap(b, t, k, assetIn, amountIn, out))
  {
    var after := PostSwap(b, t, k, assetIn, amountIn, out);
    var keys: seq<Key> := [(t.sender, OCN), (t.sender, assetIn), (PoolAddr(k), OtherSide(k, assetIn))];
    assert Protected(keys[1]) ==> At(after.balances, keys[1]) >= 0;
    assert Protected(keys[2]) ==> At(after.balances, keys[2]) >= 0;
  }

  lemma RemoveSolvent(b: Books, t: TxBody, k: PoolKey, shares: int, outA: int, outB: int)
    requires Solvent(b) && t.sender.User? && t.recipient == t.sender && CanonicalPool(k)
    requires outA >= 0 && outB >= 0
    requires var after := PostRemove(b, t, k, shares, outA, outB);
      ProtectedNonNegative(after, [(t.sender, Lp(k)), (t.sender, OCN), (PoolAddr(k), Plain(k.a)), (PoolAddr(k), Plain(k.b))])
    ensures Solvent(PostRemove(b, t, k, shares, outA, outB))
  {
    var after := PostRemove(b, t, k, shares, outA, outB);
    var keys: seq<Key> := [(t.sender, Lp(k)), (t.sender, OCN), (PoolAddr(k), Plain(k.a)), (PoolAddr(k), Plain(k.b))];
    assert Protected(keys[0]) ==> At(after.balances, keys[0]) >= 0;
    assert Protected(keys[2]) ==> At(after.balances, keys[2]) >= 0;
    assert Protected(keys[3]) ==> At(after.balances, keys[3]) >= 0;
  }

  lemma TransferSolvent(b: Books, t: TxBody, asset: Asset)
    requires Solvent(b) && t.sender.User? && t.amount > 0 && asset != OCN
    requires Bal(Transfer(b, t, asset).books, t.sender, asset) >= 0
    ensures Solvent(Transfer(b, t, asset).books)
  {
  }

  /** A checked op keeps the books solvent, although only the listed debits are checked: the stake pool's OCN
      is debited by a withdrawal without being listed, and conservation of stOCN bounds what it can pay. */
  lemma OpKeepsSolvent(b: Books, t: TxBody)
    requires Solvent(b) && Balanced(b) && OpValid(t) && t.sender.User? && Apply(b, t).Applied?
    requires ProtectedNonNegative(Apply(b, t).books, Apply(b, t).debited)
    ensures Solvent(Apply(b, t).books)
  {
    match t.op
    case Some(StakeDeposit) =>
      var pool, supply := Bal(b, StakePool, OCN), At(b.supply, STOCN);
      MintedStakeNonNegative(pool, supply, t.amount);
      DepositSolvent(b, t, MintedStake(pool, supply, t.amount));
    case Some(StakeWithdraw) => WithdrawKeepsSolvent(b, t);
    case Some(AddLiquidity(k, amountA, amountB)) =>
      var rA, rB, supply := Bal(b, PoolAddr(k), Plain(k.a)), Bal(b, PoolAddr(k), Plain(k.b)), At(b.supply, Lp(k));
      MintedSharesNonNegative(rA, rB, supply, amountA, amountB);
      AddSolvent(b, t, k, amountA, amountB, MintedShares(rA, rB, supply, amountA, amountB));
    case Some(Swap(k, assetIn, amountIn, minOut)) => SwapKeepsSolvent(b, t, k, assetIn, amountIn, minOut);
    case Some(RemoveLiquidity(k, shares)) => RemoveKeepsSolvent(b, t, k, shares);
    case Some(TransferAsset(asset)) =>
      assert Protected(Apply(b, t).debited[1]);
      TransferSolvent(b, t, asset);
  }

  lemma WithdrawKeepsSolvent(b: Books, t: TxBody)
    requires Solvent(b) && Balanced(b) && t.sender.User? && t.recipient == t.sender && t.amount > 0
    requires ProtectedNonNegative(Withdraw(b, t).books, Withdraw(b, t).debited)
    ensures Solvent(Withdraw(b, t).books)
  {
    var pool, supply := Bal(b, StakePool, OCN), At(b.supply, STOCN);
    assert Protected(Withdraw(b, t).debited[0]) && Withdraw(b, t).debited[0] == (t.sender, STOCN);
    assert Bal(Withdraw(b, t).books, t.sender, STOCN) == Bal(b, t.sender, STOCN) - t.amount;
    HoldingAtMostSupply(b, t.sender, STOCN);
    assert At(b.balances, (StakePool, OCN)) >= 0;
    RedeemedWithinPool(pool, supply, t.amount);
    WithdrawSolvent(b, t, RedeemedStake(pool, supply, t.amount));
  }

  lemma SwapKeepsSolvent(b: Books, t: TxBody, k: PoolKey, assetIn: Asset, amountIn: int, minOut: int)
    requires Solvent(b) && t.sender.User? && t.recipient == t.sender && CanonicalPool(k)
    requires (assetIn == Plain(k.a) || assetIn == Plain(k.b)) && amountIn > 0
    requires SwapIn(b, t, k, assetIn, amountIn, minOut).Applied?
    requires var r := SwapIn(b, t, k, assetIn, amountIn, minOut); ProtectedNonNegative(r.books, r.debited)
    ensures Solvent(SwapIn(b, t, k, assetIn, amountIn, minOut).books)
  {
    var x, y := Bal(b, PoolAddr(k), assetIn), Bal(b, PoolAddr(k), OtherSide(k, assetIn));
    SwapOutNonNegative(x, y, amountIn);
    assert SwapIn(b, t, k, assetIn, amountIn, minOut).debited
      == [(t.sender, OCN), (t.sender, assetIn), (PoolAddr(k), OtherSide(k, assetIn))];
    SwapSolvent(b, t, k, assetIn, amountIn, SwapOut(x, y, amountIn));
  }

  lemma RemoveKeepsSolvent(b: Books, t: TxBody, k: PoolKey, shares: int)
    requires Solvent(b) && t.sender.User? && t.recipient == t.sender && CanonicalPool(k) && shares > 0
    requires ProtectedNonNegative(RemoveFrom(b, t, k, shares).books, RemoveFrom(b, t, k, shares).debited)
    ensures Solvent(RemoveFrom(b, t, k, shares).books)
  {
    var rA, rB, supply := Bal(b, PoolAddr(k), Plain(k.a)), Bal(b, PoolAddr(k), Plain(k.b)), At(b.supply, Lp(k));
    ShareOutNonNegative(rA, supply, shares);
    ShareOutNonNegative(rB, supply, shares);
    assert RemoveFrom(b, t, k, shares).debited
      == [(t.sender, Lp(k)), (t.sender, OCN), (PoolAddr(k), Plain(k.a)), (PoolAddr(k), Plain(k.b))];
    RemoveSolvent(b, t, k, shares, ShareOut(rA, supply, shares), ShareOut(rB, supply, shares));
  }
}
