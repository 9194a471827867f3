/** What rounding can cost a pool: swaps keep the product of the reserves up to half a micro-unit of output, and
    minting shares and redeeming them again gains at most half a share's worth plus half a unit. */
module PoolBounds {
  import opened Wrappers
  import opened LedgerTypes
  import opened Rounding
  import opened Ledger

  // --- Swaps ---

  ghost predicate ProductKept(x: int, y: int, dx: int, out: int) {
    && 0 <= out <= y
    && 2 * ((x + dx) * (y - out)) + (x + dx) >= 2 * (x * y)
  }

  /** The fee only lowers the output: 997 dx / (1000 x + 997 dx) is at most dx / (x + dx). */
  lemma FeeLowersOutput(x: int, y: int, dx: int)
    requires x >= 0 && y >= 0 && dx >= 0
    ensures dx * FEE_NUMERATOR * y * (x + dx) <= dx * y * (x * FEE_DENOMINATOR + dx * FEE_NUMERATOR)
  {
    MulOrder(0, dx, y);
    MulOrder(0, dx * y, x);
    calc {
      dx * y * (x * FEE_DENOMINATOR + dx * FEE_NUMERATOR) - dx * FEE_NUMERATOR * y * (x + dx);
      dx * y * (x * 1000 + dx * 997) - 997 * (dx * y) * (x + dx);
      (dx * y) * (3 * x);
      3 * ((dx * y) * x);
    }
  }

  /** From half-unit rounding of n/d, with n/d at most g/w, to a bound in w alone. */
  lemma RoundedShare(out: int, n: int, d: int, g: int, w: int)
    requires d > 0 && w > 0 && 2 * (out * d - n) <= d && n * w <= g * d
    ensures 2 * (out * w) <= 2 * g + w
  {
    MulOrder(2 * (out * d) - 2 * n, d, w);
    assert (2 * (out * d) - 2 * n) * w == 2 * (out * w) * d - 2 * (n * w);
    assert d * w == w * d;
    assert (2 * (out * w)) * d <= (2 * g + w) * d;
    MulOrderBack(2 * (out * w), 2 * g + w, d);
  }

  lemma SwapWithinReserve(y: int, d: int, share: int)
    requires y >= 0 && 0 <= share <= d && d > 0
    ensures 0 <= RoundDiv(share * y, d) <= y
  {
    MulOrder(0, y, share);
    RoundAtLeast(share * y, d, 0);
    MulOrder(share, d, y);
    RoundAtMost(share * y, d, y);
  }

  lemma SwapBound(x: int, y: int, dx: int)
    requires x >= 0 && y >= 0 && dx > 0
    ensures ProductKept(x, y, dx, SwapOut(x, y, dx))
  {
    var share, d := dx * FEE_NUMERATOR, x * FEE_DENOMINATOR + dx * FEE_NUMERATOR;
    SwapWithinReserve(y, d, share);
    FeeLowersOutput(x, y, dx);
    SwapProduct(x, y, dx, share * y, d, RoundDiv(share * y, d));
  }

  lemma SwapProduct(x: int, y: int, dx: int, n: int, d: int, out: int)
    requires d > 0 && x + dx > 0 && 2 * (out * d - n) <= d && n * (x + dx) <= dx * y * d && 0 <= out <= y
    ensures ProductKept(x, y, dx, out)
  {
    RoundedShare(out, n, d, dx * y, x + dx);
    assert (x + dx) * (y - out) == x * y + dx * y - out * (x + dx);
  }

  /** Without rounding up, the product never falls. */
  lemma ExactSwapKeepsProduct(x: int, y: int, dx: int, out: int)
    requires x >= 0 && y >= 0 && dx > 0
    requires out * (x * FEE_DENOMINATOR + dx * FEE_NUMERATOR) <= dx * FEE_NUMERATOR * y
    ensures (x + dx) * (y - out) >= x * y
  {
    var d, w := x * FEE_DENOMINATOR + dx * FEE_NUMERATOR, x + dx;
    FeeLowersOutput(x, y, dx);
    MulOrder(out * d, dx * FEE_NUMERATOR * y, w);
    assert (out * w) * d == (out * d) * w;
    MulOrderBack(out * w, dx * y, d);
    assert w * (y - out) == x * y + dx * y - out * w;
  }

  /** The same on the books: what one swap does to the two reserves of its pool. */
  lemma SwapReserves(b: Books, t: TxBody, k: PoolKey, assetIn: Asset, amountIn: int, minOut: int)
    requires t.op == Some(Swap(k, assetIn, amountIn, minOut)) && OpValid(t) && t.sender.User? && Apply(b, t).Applied?
    requires Bal(b, PoolAddr(k), assetIn) >= 0 && Bal(b, PoolAddr(k), OtherSide(k, assetIn)) >= 0
    ensures var x, y := Bal(b, PoolAddr(k), assetIn), Bal(b, PoolAddr(k), OtherSide(k, assetIn));
      var after := Apply(b, t).books;
      var paidOut := y - Bal(after, PoolAddr(k), OtherSide(k, assetIn));
      && Bal(after, PoolAddr(k), assetIn) == x + amountIn && paidOut >= minOut
      && ProductKept(x, y, amountIn, paidOut)
  {
    SwapBound(Bal(b, PoolAddr(k), assetIn), Bal(b, PoolAddr(k), OtherSide(k, assetIn)), amountIn);
  }

  // --- Mint, then redeem ---

  /** Shares minted for a against a pool of p with supply s, too many by at most half a share's worth. */
  ghost predicate FairMint(p: int, s: int, a: int, minted: int) {
    2 * (minted * p - a * s) <= p
  }

  ghost predicate GainBound(p: int, s: int, a: int, out: int) {
    2 * (s * (out - a)) <= p + s
  }

  lemma RoundTrip(p: int, s: int, a: int, m: int, out: int)
    requires p > 0 && s > 0 && m >= 0 && FairMint(p, s, a, m)
    requires 2 * (out * (s + m) - m * (p + a)) <= s + m
    ensures GainBound(p, s, a, out)
  {
    var d := out - a;
    assert out * (s + m) == d * s + d * m + a * s + a * m;
    assert m * (p + a) == m * p + a * m;
    assert 2 * (d * s + d * m) <= p + s + m;
    if d <= 0 {
      MulOrder(d, 0, s);
    } else {
      MulOrder(1, d, m);
    }
    assert d * s == s * d;
  }

  /** Depositing `amount` and redeeming what it minted, at the rates the ledger uses in between. */
  lemma StakeRoundTrip(pool: int, supply: int, amount: int)
    requires pool > 0 && supply > 0 && amount >= 0
    ensures var minted := MintedStake(pool, supply, amount);
      GainBound(pool, supply, amount, RedeemedStake(pool + amount, supply + minted, minted))
  {
    var minted := MintedStake(pool, supply, amount);
    MulOrder(0, amount, supply);
    RoundAtLeast(amount * supply, pool, 0);
    RoundTrip(pool, supply, amount, minted, RedeemedStake(pool + amount, supply + minted, minted));
  }

  ghost predicate DepositThenRedeem(b: Books, deposit: TxBody, redeem: TxBody, amount: int) {
    && deposit.op == Some(StakeDeposit) && redeem.op == Some(StakeWithdraw)
    && deposit.sender == redeem.sender && deposit.sender.User?
    && deposit.recipient == StakePool && redeem.recipient == redeem.sender && deposit.amount == amount > 0
    && redeem.amount == MintedStake(Bal(b, StakePool, OCN), At(b.supply, STOCN), amount)
  }

  /** The same on the books, fees aside: a deposit followed at once by redeeming the minted stOCN. */
  lemma StakeRoundTripOnBooks(b: Books, deposit: TxBody, redeem: TxBody, amount: int)
    requires DepositThenRedeem(b, deposit, redeem, amount)
    requires Bal(b, StakePool, OCN) > 0 && At(b.supply, STOCN) > 0
    ensures var after := Apply(Apply(b, deposit).books, redeem).books;
      var gained := Bal(after, deposit.sender, OCN) - Bal(b, deposit.sender, OCN) + deposit.fee + redeem.fee;
      && 2 * (At(b.supply, STOCN) * gained) <= Bal(b, StakePool, OCN) + At(b.supply, STOCN)
      && Bal(after, deposit.sender, STOCN) == Bal(b, deposit.sender, STOCN)
      && after.supply[STOCN] == b.supply[STOCN]
  {
    var p, s := Bal(b, StakePool, OCN), At(b.supply, STOCN);
    StakeRoundTrip(p, s, amount);
    var mid := PostDeposit(b, deposit, redeem.amount);
    MidBooks(b, deposit, redeem.amount);
    RedeemEffect(mid, redeem, RedeemedStake(p + amount, s + redeem.amount, redeem.amount));
  }

  lemma MidBooks(b: Books, deposit: TxBody, minted: int)
    requires deposit.sender.User? && deposit.recipient == StakePool
    ensures var mid := PostDeposit(b, deposit, minted);
      && Bal(mid, StakePool, OCN) == Bal(b, StakePool, OCN) + deposit.amount
      && At(mid.supply, STOCN) == At(b.supply, STOCN) + minted
      && Bal(mid, deposit.sender, OCN) == Bal(b, deposit.sender, OCN) - deposit.amount - deposit.fee
      && Bal(mid, deposit.sender, STOCN) == Bal(b, deposit.sender, STOCN) + minted
  {
  }

  lemma RedeemEffect(b: Books, t: TxBody, redeemed: int)
    requires t.sender.User? && t.recipient == t.sender
    ensures var after := PostWithdraw(b, t, redeemed);
      && Bal(after, t.sender, OCN) == Bal(b, t.sender, OCN) - t.fee + redeemed
      && Bal(after, t.sender, STOCN) == Bal(b, t.sender, STOCN) - t.amount
      && STOCN in after.supply && after.supply[STOCN] == At(b.supply, STOCN) - t.amount
  {
  }

  // --- Liquidity ---

  /** The smaller of two proportions is a fair mint for both sides. */
  lemma FairOnOtherSide(rA: int, rB: int, s: int, a: int, z: int, m: int)
    requires rA > 0 && rB > 0 && s > 0 && z * rA <= a * rB && FairMint(rB, s, z, m)
    ensures FairMint(rA, s, a, m)
  {
    MulOrder(2 * (m * rB - z * s), rB, rA);
    MulOrder(z * rA, a * rB, s);
    assert (2 * (m * rB - z * s)) * rA == 2 * (m * rA) * rB - 2 * ((z * rA) * s);
    assert (a * rB) * s == (a * s) * rB;
    assert (2 * (m * rA - a * s)) * rB == 2 * (m * rA) * rB - 2 * ((a * s) * rB);
    MulOrderBack(2 * (m * rA - a * s), rA, rB);
  }

  lemma FairShares(rA: int, rB: int, s: int, a: int, z: int)
    requires rA > 0 && rB > 0 && s > 0 && a > 0 && z > 0
    ensures var m := MintedShares(rA, rB, s, a, z); m >= 0 && FairMint(rA, s, a, m) && FairMint(rB, s, z, m)
  {
    var m := MintedShares(rA, rB, s, a, z);
    MulOrder(0, a, s);
    MulOrder(0, z, s);
    RoundAtLeast(a * s, rA, 0);
    RoundAtLeast(z * s, rB, 0);
    if a * rB <= z * rA {
      FairOnOtherSide(rB, rA, s, z, a, m);
    } else {
      FairOnOtherSide(rA, rB, s, a, z, m);
    }
  }

  /** Adding liquidity and removing the minted shares again, for each side of the pool. */
  lemma LiquidityRoundTrip(rA: int, rB: int, s: int, a: int, z: int)
    requires rA > 0 && rB > 0 && s > 0 && a > 0 && z > 0
    ensures var m := MintedShares(rA, rB, s, a, z);
      GainBound(rA, s, a, ShareOut(rA + a, s + m, m)) && GainBound(rB, s, z, ShareOut(rB + z, s + m, m))
  {
    var m := MintedShares(rA, rB, s, a, z);
    FairShares(rA, rB, s, a, z);
    assert (rA + a) * m == m * (rA + a) && (rB + z) * m == m * (rB + z);
    RoundTrip(rA, s, a, m, ShareOut(rA + a, s + m, m));
    RoundTrip(rB, s, z, m, ShareOut(rB + z, s + m, m));
  }

  /** A reserve of p fell to `left`, by at most half a share's worth and half a unit. */
  ghost predicate LossBound(p: int, s: int, left: int) {
    2 * (s * (p - left)) <= p + s
  }

  lemma GainIsLoss(p: int, s: int, a: int, out: int)
    requires GainBound(p, s, a, out)
    ensures LossBound(p, s, p + a - out)
  {
    assert p - (p + a - out) == out - a;
  }

  /** The same on the books: what the pool can lose to someone who adds liquidity and at once removes it. */
  lemma LiquidityRoundTripOnBooks(b: Books, add: TxBody, remove: TxBody, k: PoolKey, a: int, z: int)
    requires add.op == Some(AddLiquidity(k, a, z)) && OpValid(add) && add.sender.User?
    requires remove.sender == remove.recipient == add.sender
    requires var rA, rB, s := Bal(b, PoolAddr(k), Plain(k.a)), Bal(b, PoolAddr(k), Plain(k.b)), At(b.supply, Lp(k));
      rA > 0 && rB > 0 && s > 0 && remove.op == Some(RemoveLiquidity(k, MintedShares(rA, rB, s, a, z)))
    ensures var rA, rB, s := Bal(b, PoolAddr(k), Plain(k.a)), Bal(b, PoolAddr(k), Plain(k.b)), At(b.supply, Lp(k));
      var after := Apply(Apply(b, add).books, remove).books;
      && LossBound(rA, s, Bal(after, PoolAddr(k), Plain(k.a))) && LossBound(rB, s, Bal(after, PoolAddr(k), Plain(k.b)))
      && At(after.supply, Lp(k)) == s
  {
    var rA, rB, s := Bal(b, PoolAddr(k), Plain(k.a)), Bal(b, PoolAddr(k), Plain(k.b)), At(b.supply, Lp(k));
    var m := MintedShares(rA, rB, s, a, z);
    var outA, outB := ShareOut(rA + a, s + m, m), ShareOut(rB + z, s + m, m);
    LiquidityRoundTrip(rA, rB, s, a, z);
    GainIsLoss(rA, s, a, outA);
    GainIsLoss(rB, s, z, outB);
    AddThenRemove(b, add, remove, k, a, z, m, outA, outB);
    AddRemoveEffect(b, add, remove, k, a, z, m, outA, outB);
  }

  lemma AddRemoveEffect(b: Books, add: TxBody, remove: TxBody, k: PoolKey, a: int, z: int, m: int, outA: int, outB: int)
    requires add.sender.User? && remove.sender == remove.recipient == add.sender && CanonicalPool(k)
    ensures var after := PostRemove(PostAdd(b, add, k, a, z, m), remove, k, m, outA, outB);
      && Bal(after, PoolAddr(k), Plain(k.a)) == Bal(b, PoolAddr(k), Plain(k.a)) + a - outA
      && Bal(after, PoolAddr(k), Plain(k.b)) == Bal(b, PoolAddr(k), Plain(k.b)) + z - outB
      && At(after.supply, Lp(k)) == At(b.supply, Lp(k))
  {
    AddEffect(b, add, k, a, z, m);
    RemoveEffect(PostAdd(b, add, k, a, z, m), remove, k, m, outA, outB);
  }

  lemma AddThenRemove(b: Books, add: TxBody, remove: TxBody, k: PoolKey, a: int, z: int, m: int, outA: int, outB: int)
    requires add.op == Some(AddLiquidity(k, a, z)) && add.sender.User? && CanonicalPool(k)
    requires remove.op == Some(RemoveLiquidity(k, m)) && remove.sender == remove.recipient == add.sender
    requires m == MintedShares(Bal(b, PoolAddr(k), Plain(k.a)), Bal(b, PoolAddr(k), Plain(k.b)), At(b.supply, Lp(k)), a, z)
    requires outA == ShareOut(Bal(b, PoolAddr(k), Plain(k.a)) + a, At(b.supply, Lp(k)) + m, m)
    requires outB == ShareOut(Bal(b, PoolAddr(k), Plain(k.b)) + z, At(b.supply, Lp(k)) + m, m)
    ensures Apply(Apply(b, add).books, remove).books == PostRemove(PostAdd(b, add, k, a, z, m), remove, k, m, outA, outB)
  {
    AddEffect(b, add, k, a, z, m);
    var mid := PostAdd(b, add, k, a, z, m);
    assert Apply(b, add).books == mid;
    RemoveOf(mid, remove, k, m, outA, outB);
  }

  lemma RemoveOf(b: Books, t: TxBody, k: PoolKey, m: int, outA: int, outB: int)
    requires t.op == Some(RemoveLiquidity(k, m))
    requires outA == ShareOut(Bal(b, PoolAddr(k), Plain(k.a)), At(b.supply, Lp(k)), m)
    requires outB == ShareOut(Bal(b, PoolAddr(k), Plain(k.b)), At(b.supply, Lp(k)), m)
    ensures Apply(b, t).Applied? && Apply(b, t).books == PostRemove(b, t, k, m, outA, outB)
  {
  }

  lemma AddEffect(b: Books, t: TxBody, k: PoolKey, a: int, z: int, m: int)
    requires t.sender.User? && CanonicalPool(k)
    ensures var mid := PostAdd(b, t, k, a, z, m);
      && Bal(mid, PoolAddr(k), Plain(k.a)) == Bal(b, PoolAddr(k), Plain(k.a)) + a
      && Bal(mid, PoolAddr(k), Plain(k.b)) == Bal(b, PoolAddr(k), Plain(k.b)) + z
      && At(mid.supply, Lp(k)) == At(b.supply, Lp(k)) + m
  {
  }

  lemma RemoveEffect(b: Books, t: TxBody, k: PoolKey, m: int, outA: int, outB: int)
    requires t.sender.User? && t.recipient == t.sender && CanonicalPool(k)
    ensures var after := PostRemove(b, t, k, m, outA, outB);
      && Bal(after, PoolAddr(k), Plain(k.a)) == Bal(b, PoolAddr(k), Plain(k.a)) - outA
      && Bal(after, PoolAddr(k), Plain(k.b)) == Bal(b, PoolAddr(k), Plain(k.b)) - outB
      && At(after.supply, Lp(k)) == At(b.supply, Lp(k)) - m
  {
  }
}
