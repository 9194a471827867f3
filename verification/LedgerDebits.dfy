/** Who a transaction can take from: the list of debited keys is complete but for one, and nobody else is touched. */
module LedgerDebits {
  import opened Wrappers
  import opened LedgerTypes
  import opened Rounding
  import opened Ledger
  import opened LedgerTotals
  import opened LedgerSolvency
  import opened BlockIndependence

  /** The one debit that the accounting does not list. */
  predicate Unlisted(t: TxBody, k: Key) {
    t.op == Some(StakeWithdraw) && k == (StakePool, OCN)
  }

  ghost predicate FallsOnlyAt(b: Books, after: Books, keys: seq<Key>, t: TxBody) {
    forall k: Key :: At(after.balances, k) < At(b.balances, k) ==> k in keys || Unlisted(t, k)
  }

  predicate Party(t: TxBody, who: Addr) {
    who == t.sender || who == t.recipient || PoolRead(t) == Some(who)
  }

  ghost predicate TouchesOnlyParties(b: Books, after: Books, t: TxBody) {
    forall k: Key :: At(after.balances, k) != At(b.balances, k) ==> Party(t, k.0)
  }

  lemma DepositDebits(b: Books, t: TxBody, minted: int)
    requires t.sender.User? && t.recipient == StakePool && t.amount > 0 && minted >= 0 && t.op == Some(StakeDeposit)
    ensures FallsOnlyAt(b, PostDeposit(b, t, minted), [(t.sender, OCN)], t)
    ensures TouchesOnlyParties(b, PostDeposit(b, t, minted), t)
  {
  }

  lemma WithdrawDebits(b: Books, t: TxBody, redeemed: int)
    requires t.sender.User? && t.recipient == t.sender && t.op == Some(StakeWithdraw)
    ensures FallsOnlyAt(b, PostWithdraw(b, t, redeemed), [(t.sender, STOCN), (t.sender, OCN)], t)
    ensures TouchesOnlyParties(b, PostWithdraw(b, t, redeemed), t)
  {
    var keys: seq<Key> := [(t.sender, STOCN), (t.sender, OCN)];
    assert keys[0] in keys && keys[1] in keys;
  }

  lemma AddDebits(b: Books, t: TxBody, k: PoolKey, amountA: int, amountB: int, minted: int)
    requires t.sender.User? && CanonicalPool(k) && amountA > 0 && amountB > 0 && minted >= 0
    requires t.op == Some(AddLiquidity(k, amountA, amountB))
    ensures FallsOnlyAt(b, PostAdd(b, t, k, amountA, amountB, minted),
                        [(t.sender, OCN), (t.sender, Plain(k.a)), (t.sender, Plain(k.b))], t)
  {
    var keys: seq<Key> := [(t.sender, OCN), (t.sender, Plain(k.a)), (t.sender, Plain(k.b))];
    assert keys[0] in keys && keys[1] in keys && keys[2] in keys;
  }

  lemma AddTouches(b: Books, t: TxBody, k: PoolKey, amountA: int, amountB: int, minted: int)
    requires t.sender.User? && t.op == Some(AddLiquidity(k, amountA, amountB))
    ensures TouchesOnlyParties(b, PostAdd(b, t, k, amountA, amountB, minted), t)
  {
  }

  lemma SwapDebits(b: Books, t: TxBody, k: PoolKey, assetIn: Asset, amountIn: int, minOut: int, out: int)
    requires t.sender.User? && t.recipient == t.sender && CanonicalPool(k) && amountIn > 0 && out >= 0
    requires (assetIn == Plain(k.a) || assetIn == Plain(k.b)) && t.op == Some(Swap(k, assetIn, amountIn, minOut))
    ensures FallsOnlyAt(b, PostSwap(b, t, k, assetIn, amountIn, out),
                        [(t.sender, OCN), (t.sender, assetIn), (PoolAddr(k), OtherSide(k, assetIn))], t)
  {
    var keys: seq<Key> := [(t.sender, OCN), (t.sender, assetIn), (PoolAddr(k), OtherSide(k, assetIn))];
    assert keys[0] in keys && keys[1] in keys && keys[2] in keys;
  }

  lemma SwapTouches(b: Books, t: TxBody, k: PoolKey, assetIn: Asset, amountIn: int, minOut: int, out: int)
    requires t.sender.User? && t.op == Some(Swap(k, assetIn, amountIn, minOut))
    ensures TouchesOnlyParties(b, PostSwap(b, t, k, assetIn, amountIn, out), t)
  {
  }

  lemma RemoveTouches(b: Books, t: TxBody, k: PoolKey, shares: int, outA: int, outB: int)
    requires t.sender.User? && t.op == Some(RemoveLiquidity(k, shares))
    ensures TouchesOnlyParties(b, PostRemove(b, t, k, shares, outA, outB), t)
  {
  }

  lemma RemoveDebits(b: Books, t: TxBody, k: PoolKey, shares: int, outA: int, outB: int)
    requires t.sender.User? && t.recipient == t.sender && CanonicalPool(k) && shares > 0 && outA >= 0 && outB >= 0
    requires t.op == Some(RemoveLiquidity(k, shares))
    ensures FallsOnlyAt(b, PostRemove(b, t, k, shares, outA, outB),
                        [(t.sender, Lp(k)), (t.sender, OCN), (PoolAddr(k), Plain(k.a)), (PoolAddr(k), Plain(k.b))], t)
  {
    var keys: seq<Key> := [(t.sender, Lp(k)), (t.sender, OCN), (PoolAddr(k), Plain(k.a)), (PoolAddr(k), Plain(k.b))];
    assert keys[0] in keys && keys[1] in keys && keys[2] in keys && keys[3] in keys;
  }

  lemma TransferDebits(b: Books, t: TxBody, asset: Asset)
    requires t.sender.User? && t.amount > 0
    ensures FallsOnlyAt(b, Transfer(b, t, asset).books, Transfer(b, t, asset).debited, t)
    ensures TouchesOnlyParties(b, Transfer(b, t, asset).books, t)
  {
    var keys := Transfer(b, t, asset).debited;
    assert keys[0] in keys && (asset != OCN ==> keys[1] in keys);
  }

  /** The debited list is complete: of a user's valid transaction, only a listed balance can fall, and the stake
      pool's OCN in a withdrawal; and it changes nothing but balances of the sender, the recipient and the pool. */
  lemma DebitsAreListed(b: Books, tx: Tx)
    requires Solvent(b) && tx.body.sender.User? && TxValid(tx) && Apply(b, tx.body).Applied?
    requires tx.body.op.None? || OpValid(tx.body)
    ensures FallsOnlyAt(b, Apply(b, tx.body).books, Apply(b, tx.body).debited, tx.body)
    ensures TouchesOnlyParties(b, Apply(b, tx.body).books, tx.body)
  {
    var t := tx.body;
    match t.op
    case None => TransferDebits(b, t, OCN);
    case Some(TransferAsset(asset)) => TransferDebits(b, t, asset);
    case Some(StakeDeposit) =>
      var pool, supply := Bal(b, StakePool, OCN), At(b.supply, STOCN);
      MintedStakeNonNegative(pool, supply, t.amount);
      DepositDebits(b, t, MintedStake(pool, supply, t.amount));
    case Some(StakeWithdraw) => WithdrawDebits(b, t, RedeemedStake(Bal(b, StakePool, OCN), At(b.supply, STOCN), t.amount));
    case Some(AddLiquidity(k, amountA, amountB)) =>
      var rA, rB, supply := Bal(b, PoolAddr(k), Plain(k.a)), Bal(b, PoolAddr(k), Plain(k.b)), At(b.supply, Lp(k));
      MintedSharesNonNegative(rA, rB, supply, amountA, amountB);
      AddDebits(b, t, k, amountA, amountB, MintedShares(rA, rB, supply, amountA, amountB));
      AddTouches(b, t, k, amountA, amountB, MintedShares(rA, rB, supply, amountA, amountB));
    case Some(Swap(k, assetIn, amountIn, minOut)) =>
      var x, y := Bal(b, PoolAddr(k), assetIn), Bal(b, PoolAddr(k), OtherSide(k, assetIn));
      SwapOutNonNegative(x, y, amountIn);
      SwapDebits(b, t, k, assetIn, amountIn, minOut, SwapOut(x, y, amountIn));
      SwapTouches(b, t, k, assetIn, amountIn, minOut, SwapOut(x, y, amountIn));
    case Some(RemoveLiquidity(k, shares)) =>
      var rA, rB, supply := Bal(b, PoolAddr(k), Plain(k.a)), Bal(b, PoolAddr(k), Plain(k.b)), At(b.supply, Lp(k));
      ShareOutNonNegative(rA, supply, shares);
      ShareOutNonNegative(rB, supply, shares);
      RemoveDebits(b, t, k, shares, ShareOut(rA, supply, shares), ShareOut(rB, supply, shares));
      RemoveTouches(b, t, k, shares, ShareOut(rA, supply, shares), ShareOut(rB, supply, shares));
  }
}
