/** What each kind of transaction does to the books, to every balance and every supply, with the amounts that the
    protocol computes given by the fractions they round.  The statements do not name the functions that compute them. */
module LedgerEffects {
  import opened Wrappers
  import opened LedgerTypes
  import opened Rounding
  import opened Ledger

  // --- Rounded fractions ---

  /** r is num / den rounded to the nearest whole number, and to the even one of two that are equally near. */
  ghost predicate Nearest(r: int, num: int, den: int) {
    && -den <= 2 * (r * den - num) <= den
    && (2 * (r * den - num) == den || 2 * (r * den - num) == -den ==> r % 2 == 0)
  }

  lemma RoundDivNearest(num: int, den: int)
    requires den > 0
    ensures Nearest(RoundDiv(num, den), num, den)
  {
    var q, rest := num / den, num % den;
    assert num == q * den + rest;
    assert (q + 1) * den == q * den + den;
  }

  /** The condition leaves no choice. */
  lemma NearestUnique(r: int, q: int, num: int, den: int)
    requires den > 0 && Nearest(r, num, den) && Nearest(q, num, den)
    ensures r == q
  {
    AtMostOneApart(r, q, num, den);
    AtMostOneApart(q, r, num, den);
    assert (q + 1) * den == q * den + den;
    assert (q - 1) * den == q * den - den;
  }

  lemma AtMostOneApart(r: int, q: int, num: int, den: int)
    requires den > 0 && Nearest(r, num, den) && Nearest(q, num, den)
    ensures r - q <= 1
  {
    assert (r - q) * den == r * den - q * den;
    MulOrderBack(r - q, 1, den);
  }

  // --- Parts of a posting ---

  /** What paying `amount` of the asset to `who` adds at key k. */
  function Part(k: Key, who: Addr, asset: Asset, amount: int): int {
    if k == (who, asset) then amount else 0
  }

  /** What charging the sender adds at key k; the network is never charged. */
  function Charge(k: Key, t: TxBody, asset: Asset, amount: int): int {
    if t.sender == Network then 0 else Part(k, t.sender, asset, -amount)
  }

  ghost predicate OnlySupply(b: Books, after: Books, asset: Asset, amount: int) {
    forall a :: At(after.supply, a) == At(b.supply, a) + if a == asset then amount else 0
  }

  lemma CreditAt(b: Books, who: Addr, asset: Asset, amount: int, k: Key)
    ensures At(Credit(b, who, asset, amount).balances, k) == At(b.balances, k) + Part(k, who, asset, amount)
  {
  }

  lemma FeeAt(b: Books, t: TxBody, k: Key)
    ensures At(FeeOnly(b, t).balances, k) == At(b.balances, k) + Charge(k, t, Plain(0), t.fee)
  {
  }

  function Keys(debited: seq<Key>): set<Key> {
    set k | k in debited
  }

  function Charged(t: TxBody, keys: set<Key>): set<Key> {
    if t.sender == Network then {} else keys
  }

  // --- The stake pool ---

  /** With P OCN in the pool and S stOCN in circulation, `amount` OCN mint amount * S / P stOCN; at the start, one
      for one. */
  ghost predicate Deposited(b: Books, t: TxBody, after: Books, minted: int) {
    var p, s := Bal(b, StakePool, Plain(0)), At(b.supply, Plain(1));
    && (if s > 0 && p > 0 then Nearest(minted, t.amount * s, p) else minted == t.amount)
    && OnlySupply(b, after, Plain(1), minted)
    && forall k: Key :: At(after.balances, k) == At(b.balances, k) + DepositMoves(k, t, minted)
  }

  function DepositMoves(k: Key, t: TxBody, minted: int): int {
    Charge(k, t, Plain(0), t.amount + t.fee) + Part(k, t.recipient, Plain(0), t.amount)
    + Part(k, t.sender, Plain(1), minted)
  }

  lemma DepositEffect(b: Books, t: TxBody) returns (minted: int)
    requires t.op == Some(StakeDeposit)
    ensures Apply(b, t).Applied? && Deposited(b, t, Apply(b, t).books, minted)
    ensures Keys(Apply(b, t).debited) == Charged(t, {(t.sender, Plain(0))})
  {
    var p, s := Bal(b, StakePool, OCN), At(b.supply, STOCN);
    minted := MintedStake(p, s, t.amount);
    if s > 0 && p > 0 {
      RoundDivNearest(t.amount * s, p);
    }
    DepositPosted(b, t, minted);
  }

  lemma DepositPosted(b: Books, t: TxBody, minted: int)
    ensures OnlySupply(b, PostDeposit(b, t, minted), Plain(1), minted)
    ensures forall k: Key ::
      At(PostDeposit(b, t, minted).balances, k) == At(b.balances, k) + DepositMoves(k, t, minted)
  {
    var b1 := if t.sender == Network then b else Credit(b, t.sender, OCN, -(t.amount + t.fee));
    var b2, after := Credit(b1, t.recipient, OCN, t.amount), PostDeposit(b, t, minted);
    forall k: Key ensures At(after.balances, k) == At(b.balances, k) + DepositMoves(k, t, minted) {
      CreditAt(b, t.sender, OCN, -(t.amount + t.fee), k);
      CreditAt(b1, t.recipient, OCN, t.amount, k);
      CreditAt(b2, t.sender, STOCN, minted, k);
    }
  }

  /** And `amount` stOCN are worth amount * P / S OCN, which leave the pool for the recipient. */
  ghost predicate Withdrawn(b: Books, t: TxBody, after: Books, redeemed: int) {
    var p, s := Bal(b, StakePool, Plain(0)), At(b.supply, Plain(1));
    && (if s > 0 then Nearest(redeemed, t.amount * p, s) else redeemed == t.amount)
    && OnlySupply(b, after, Plain(1), -t.amount)
    && forall k: Key :: At(after.balances, k) == At(b.balances, k) + WithdrawMoves(k, t, redeemed)
  }

  function WithdrawMoves(k: Key, t: TxBody, redeemed: int): int {
    Part(k, t.sender, Plain(1), -t.amount) + Charge(k, t, Plain(0), t.fee)
    + Part(k, StakePool, Plain(0), -redeemed) + Part(k, t.recipient, Plain(0), redeemed)
  }

  lemma WithdrawEffect(b: Books, t: TxBody) returns (redeemed: int)
    requires t.op == Some(StakeWithdraw)
    ensures Apply(b, t).Applied? && Withdrawn(b, t, Apply(b, t).books, redeemed)
    ensures Keys(Apply(b, t).debited) == {(t.sender, Plain(1))} + Charged(t, {(t.sender, Plain(0))})
  {
    var p, s := Bal(b, StakePool, OCN), At(b.supply, STOCN);
    redeemed := RedeemedStake(p, s, t.amount);
    if s > 0 {
      RoundDivNearest(t.amount * p, s);
    }
    WithdrawPosted(b, t, redeemed);
  }

  lemma WithdrawPosted(b: Books, t: TxBody, redeemed: int)
    ensures OnlySupply(b, PostWithdraw(b, t, redeemed), Plain(1), -t.amount)
    ensures forall k: Key ::
      At(PostWithdraw(b, t, redeemed).balances, k) == At(b.balances, k) + WithdrawMoves(k, t, redeemed)
  {
    forall k: Key
      ensures At(PostWithdraw(b, t, redeemed).balances, k) == At(b.balances, k) + WithdrawMoves(k, t, redeemed) {
      WithdrawAt(b, t, redeemed, k);
    }
  }

  lemma WithdrawAt(b: Books, t: TxBody, redeemed: int, k: Key)
    ensures At(PostWithdraw(b, t, redeemed).balances, k) == At(b.balances, k) + WithdrawMoves(k, t, redeemed)
  {
    var b1 := Mint(Credit(b, t.sender, STOCN, -t.amount), STOCN, -t.amount);
    var b2 := Credit(FeeOnly(b1, t), StakePool, OCN, -redeemed);
    CreditAt(b, t.sender, STOCN, -t.amount, k);
    FeeAt(b1, t, k);
    CreditAt(FeeOnly(b1, t), StakePool, OCN, -redeemed, k);
    CreditAt(b2, t.recipient, OCN, redeemed, k);
  }

  /** What a holder sees of its own withdrawal. */
  lemma WithdrawPays(b: Books, t: TxBody) returns (redeemed: int)
    requires t.op == Some(StakeWithdraw) && t.sender.User? && t.recipient == t.sender
    requires Bal(b, StakePool, Plain(0)) > 0 && At(b.supply, Plain(1)) > 0
    ensures Apply(b, t).Applied?
    ensures var p, s := Bal(b, StakePool, Plain(0)), At(b.supply, Plain(1));
      -s <= 2 * (redeemed * s - t.amount * p) <= s
    ensures var after := Apply(b, t).books;
      && Bal(after, t.sender, Plain(0)) == Bal(b, t.sender, Plain(0)) + redeemed - t.fee
      && Bal(after, t.sender, Plain(1)) == Bal(b, t.sender, Plain(1)) - t.amount
      && Bal(after, StakePool, Plain(0)) == Bal(b, StakePool, Plain(0)) - redeemed
      && At(after.supply, Plain(1)) == At(b.supply, Plain(1)) - t.amount
  {
    redeemed := WithdrawEffect(b, t);
  }

  // --- Liquidity ---

  /** Shares for da and db on top of reserves x and y with s shares out: the smaller of the two proportions; the
      root of the product into an empty pool. */
  ghost predicate SharesFor(x: int, y: int, s: int, da: int, db: int, minted: int) {
    if s > 0 && x > 0 && y > 0 then
      if da * y <= db * x then Nearest(minted, da * s, x) else Nearest(minted, db * s, y)
    else if da * db < 0 then minted == 0
    else
      && minted >= 0 && 4 * (da * db) <= (2 * minted + 1) * (2 * minted + 1)
      && (minted > 0 ==> (2 * minted - 1) * (2 * minted - 1) < 4 * (da * db))
  }

  ghost predicate LiquidityAdded(b: Books, t: TxBody, p: PoolKey, da: int, db: int, after: Books, minted: int) {
    && SharesFor(Bal(b, PoolAddr(p), Plain(p.a)), Bal(b, PoolAddr(p), Plain(p.b)), At(b.supply, Lp(p)), da, db, minted)
    && OnlySupply(b, after, Lp(p), minted)
    && forall k: Key :: At(after.balances, k) == At(b.balances, k) + AddMoves(k, t, p, da, db, minted)
  }

  function AddMoves(k: Key, t: TxBody, p: PoolKey, da: int, db: int, minted: int): int {
    Charge(k, t, Plain(0), t.fee) + Charge(k, t, Plain(p.a), da) + Charge(k, t, Plain(p.b), db)
    + Part(k, PoolAddr(p), Plain(p.a), da) + Part(k, PoolAddr(p), Plain(p.b), db) + Part(k, t.sender, Lp(p), minted)
  }

  lemma AddEffect(b: Books, t: TxBody, p: PoolKey, da: int, db: int) returns (minted: int)
    requires t.op == Some(AddLiquidity(p, da, db))
    ensures Apply(b, t).Applied? && LiquidityAdded(b, t, p, da, db, Apply(b, t).books, minted)
    ensures Keys(Apply(b, t).debited)
      == Charged(t, {(t.sender, Plain(0)), (t.sender, Plain(p.a)), (t.sender, Plain(p.b))})
  {
    var x, y, s := Bal(b, PoolAddr(p), Plain(p.a)), Bal(b, PoolAddr(p), Plain(p.b)), At(b.supply, Lp(p));
    minted := MintedShares(x, y, s, da, db);
    if s > 0 && x > 0 {
      RoundDivNearest(da * s, x);
    }
    if s > 0 && y > 0 {
      RoundDivNearest(db * s, y);
    }
    AddPosted(b, t, p, da, db, minted);
  }

  lemma AddPosted(b: Books, t: TxBody, p: PoolKey, da: int, db: int, minted: int)
    ensures OnlySupply(b, PostAdd(b, t, p, da, db, minted), Lp(p), minted)
    ensures forall k: Key ::
      At(PostAdd(b, t, p, da, db, minted).balances, k) == At(b.balances, k) + AddMoves(k, t, p, da, db, minted)
  {
    var pool, a, z := PoolAddr(p), Plain(p.a), Plain(p.b);
    var c1 := FeeOnly(b, t);
    var c2 := Credit(c1, t.sender, a, -da);
    var b1 := if t.sender == Network then b else Credit(c2, t.sender, z, -db);
    var c3, after := Credit(b1, pool, a, da), PostAdd(b, t, p, da, db, minted);
    forall k: Key ensures At(after.balances, k) == At(b.balances, k) + AddMoves(k, t, p, da, db, minted) {
      FeeAt(b, t, k);
      CreditAt(c1, t.sender, a, -da, k);
      CreditAt(c2, t.sender, z, -db, k);
      CreditAt(b1, pool, a, da, k);
      CreditAt(c3, pool, z, db, k);
      CreditAt(Credit(c3, pool, z, db), t.sender, Lp(p), minted, k);
    }
  }

  /** One side of a liquidity withdrawal: the reserve times the part of the shares that is handed in. */
  ghost predicate SideFor(reserve: int, s: int, shares: int, out: int) {
    if s > 0 then Nearest(out, reserve * shares, s) else out == 0
  }

  ghost predicate LiquidityRemoved(b: Books, t: TxBody, p: PoolKey, shares: int, after: Books, outA: int, outB: int) {
    && SideFor(Bal(b, PoolAddr(p), Plain(p.a)), At(b.supply, Lp(p)), shares, outA)
    && SideFor(Bal(b, PoolAddr(p), Plain(p.b)), At(b.supply, Lp(p)), shares, outB)
    && OnlySupply(b, after, Lp(p), -shares)
    && forall k: Key :: At(after.balances, k) == At(b.balances, k) + RemoveMoves(k, t, p, shares, outA, outB)
  }

  function RemoveMoves(k: Key, t: TxBody, p: PoolKey, shares: int, outA: int, outB: int): int {
    Part(k, t.sender, Lp(p), -shares) + Charge(k, t, Plain(0), t.fee)
    + Part(k, PoolAddr(p), Plain(p.a), -outA) + Part(k, PoolAddr(p), Plain(p.b), -outB)
    + Part(k, t.recipient, Plain(p.a), outA) + Part(k, t.recipient, Plain(p.b), outB)
  }

  lemma RemoveEffect(b: Books, t: TxBody, p: PoolKey, shares: int) returns (outA: int, outB: int)
    requires t.op == Some(RemoveLiquidity(p, shares))
    ensures Apply(b, t).Applied? && LiquidityRemoved(b, t, p, shares, Apply(b, t).books, outA, outB)
    ensures Keys(Apply(b, t).debited) == Charged(t, {(t.sender, Plain(0))})
      + {(t.sender, Lp(p)), (PoolAddr(p), Plain(p.a)), (PoolAddr(p), Plain(p.b))}
  {
    var x, y, s := Bal(b, PoolAddr(p), Plain(p.a)), Bal(b, PoolAddr(p), Plain(p.b)), At(b.supply, Lp(p));
    outA, outB := ShareOut(x, s, shares), ShareOut(y, s, shares);
    if s > 0 {
      RoundDivNearest(x * shares, s);
      RoundDivNearest(y * shares, s);
    }
    RemovePosted(b, t, p, shares, outA, outB);
  }

  lemma RemovePosted(b: Books, t: TxBody, p: PoolKey, shares: int, outA: int, outB: int)
    ensures OnlySupply(b, PostRemove(b, t, p, shares, outA, outB), Lp(p), -shares)
    ensures forall k: Key ::
      At(PostRemove(b, t, p, shares, outA, outB).balances, k)
      == At(b.balances, k) + RemoveMoves(k, t, p, shares, outA, outB)
  {
    forall k: Key
      ensures At(PostRemove(b, t, p, shares, outA, outB).balances, k)
        == At(b.balances, k) + RemoveMoves(k, t, p, shares, outA, outB) {
      RemoveAt(b, t, p, shares, outA, outB, k);
    }
  }

  lemma RemoveAt(b: Books, t: TxBody, p: PoolKey, shares: int, outA: int, outB: int, k: Key)
    ensures At(PostRemove(b, t, p, shares, outA, outB).balances, k)
      == At(b.balances, k) + RemoveMoves(k, t, p, shares, outA, outB)
  {
    var pool, a, z, lp := PoolAddr(p), Plain(p.a), Plain(p.b), Lp(p);
    var c1 := Mint(Credit(b, t.sender, lp, -shares), lp, -shares);
    var b1 := FeeOnly(c1, t);
    var c2 := Credit(b1, pool, a, -outA);
    var b2 := Credit(c2, pool, z, -outB);
    CreditAt(b, t.sender, lp, -shares, k);
    FeeAt(c1, t, k);
    CreditAt(b1, pool, a, -outA, k);
    CreditAt(c2, pool, z, -outB, k);
    CreditAt(b2, t.recipient, a, outA, k);
    CreditAt(Credit(b2, t.recipient, a, outA), t.recipient, z, outB, k);
  }

  // --- Swaps ---

  /** dx into reserves x and y buys 997 dx y / (1000 x + 997 dx). */
  ghost predicate SwapPays(x: int, y: int, dx: int, out: int) {
    var d := 1000 * x + 997 * dx;
    if d > 0 then Nearest(out, 997 * dx * y, d) else out == 0
  }

  ghost predicate Swapped(b: Books, t: TxBody, p: PoolKey, assetIn: Asset, assetOut: Asset, dx: int, after: Books,
                          out: int) {
    && after.supply == b.supply
    && forall k: Key :: At(after.balances, k) == At(b.balances, k) + SwapMoves(k, t, p, assetIn, assetOut, dx, out)
  }

  function SwapMoves(k: Key, t: TxBody, p: PoolKey, assetIn: Asset, assetOut: Asset, dx: int, out: int): int {
    Charge(k, t, Plain(0), t.fee) + Charge(k, t, assetIn, dx)
    + Part(k, PoolAddr(p), assetIn, dx) + Part(k, PoolAddr(p), assetOut, -out) + Part(k, t.recipient, assetOut, out)
  }

  /** A swap is refused exactly when it would pay less than the sender asked for. */
  lemma SwapEffect(b: Books, t: TxBody, p: PoolKey, assetIn: Asset, dx: int, minOut: int)
    returns (assetOut: Asset, out: int)
    requires t.op == Some(Swap(p, assetIn, dx, minOut))
    ensures assetOut == if assetIn == Plain(p.a) then Plain(p.b) else Plain(p.a)
    ensures SwapPays(Bal(b, PoolAddr(p), assetIn), Bal(b, PoolAddr(p), assetOut), dx, out)
    ensures Apply(b, t).Slippage? <==> out < minOut
    ensures out >= minOut ==>
      && Swapped(b, t, p, assetIn, assetOut, dx, Apply(b, t).books, out)
      && Keys(Apply(b, t).debited)
         == Charged(t, {(t.sender, Plain(0)), (t.sender, assetIn)}) + {(PoolAddr(p), assetOut)}
  {
    assetOut := OtherSide(p, assetIn);
    var x, y := Bal(b, PoolAddr(p), assetIn), Bal(b, PoolAddr(p), assetOut);
    out := SwapOut(x, y, dx);
    SwapPrice(x, y, dx);
    SwapPosted(b, t, p, assetIn, dx, out);
  }

  lemma SwapPrice(x: int, y: int, dx: int)
    ensures SwapPays(x, y, dx, SwapOut(x, y, dx))
  {
    var d := 1000 * x + 997 * dx;
    assert d == x * FEE_DENOMINATOR + dx * FEE_NUMERATOR && 997 * dx * y == dx * FEE_NUMERATOR * y;
    if d > 0 {
      RoundDivNearest(997 * dx * y, d);
    }
  }

  lemma SwapPosted(b: Books, t: TxBody, p: PoolKey, assetIn: Asset, dx: int, out: int)
    ensures Swapped(b, t, p, assetIn, OtherSide(p, assetIn), dx, PostSwap(b, t, p, assetIn, dx, out), out)
  {
    var pool, assetOut := PoolAddr(p), OtherSide(p, assetIn);
    var c1 := FeeOnly(b, t);
    var b1 := if t.sender == Network then b else Credit(c1, t.sender, assetIn, -dx);
    var c2 := Credit(b1, pool, assetIn, dx);
    var b2, after := Credit(c2, pool, assetOut, -out), PostSwap(b, t, p, assetIn, dx, out);
    forall k: Key
      ensures At(after.balances, k) == At(b.balances, k) + SwapMoves(k, t, p, assetIn, assetOut, dx, out) {
      FeeAt(b, t, k);
      CreditAt(c1, t.sender, assetIn, -dx, k);
      CreditAt(b1, pool, assetIn, dx, k);
      CreditAt(c2, pool, assetOut, -out, k);
      CreditAt(b2, t.recipient, assetOut, out, k);
    }
  }

  // --- Payments ---

  /** A coinbase is paid out of nothing; any other payment moves the amount and charges the fee in OCN. */
  ghost predicate Paid(b: Books, t: TxBody, asset: Asset, after: Books) {
    && after.supply == b.supply
    && forall k: Key :: At(after.balances, k) == At(b.balances, k) + PaymentMoves(k, t, asset)
  }

  function PaymentMoves(k: Key, t: TxBody, asset: Asset): int {
    Charge(k, t, Plain(0), t.fee) + Charge(k, t, asset, t.amount) + Part(k, t.recipient, asset, t.amount)
  }

  lemma PaymentEffect(b: Books, t: TxBody)
    requires t.op.None? || t.op.value.TransferAsset?
    ensures var asset := if t.op.None? then Plain(0) else t.op.value.asset;
      && Apply(b, t).Applied? && Paid(b, t, asset, Apply(b, t).books)
      && Keys(Apply(b, t).debited) == Charged(t, {(t.sender, Plain(0)), (t.sender, asset)})
  {
  }

  // --- Lists of transactions ---

  /** The books before, between and after the transactions, each applied in turn. */
  ghost predicate Walked(txs: seq<Tx>, path: seq<Books>) {
    && |path| == |txs| + 1
    && forall i {:trigger txs[i]} :: 0 <= i < |txs| ==>
         Apply(path[i], txs[i].body).Applied? && Apply(path[i], txs[i].body).books == path[i + 1]
  }

  lemma WalkedRest(txs: seq<Tx>, path: seq<Books>)
    requires txs != [] && Walked(txs, path)
    ensures Walked(txs[1..], path[1..]) && Apply(path[0], txs[0].body).Applied?
    ensures Apply(path[0], txs[0].body).books == path[1]
  {
    var rest := txs[1..];
    assert forall i :: 0 <= i < |rest| ==> rest[i] == txs[i + 1];
  }

  lemma WalkedMore(txs: seq<Tx>, path: seq<Books>, b: Books)
    requires txs != [] && Walked(txs[1..], path) && Apply(b, txs[0].body).Applied?
    requires Apply(b, txs[0].body).books == path[0]
    ensures Walked(txs, [b] + path)
  {
    forall i | 0 <= i < |txs|
      ensures Apply(([b] + path)[i], txs[i].body).Applied?
      ensures Apply(([b] + path)[i], txs[i].body).books == ([b] + path)[i + 1]
    {
      if i > 0 {
        assert txs[1..][i - 1] == txs[i];
      }
    }
  }

  /** A list of transactions goes through exactly when each can be applied to what the earlier ones left. */
  lemma ApplyAllIff(b: Books, txs: seq<Tx>, after: Books)
    ensures ApplyAll(b, txs) == Done(after)
      <==> exists path :: Walked(txs, path) && path[0] == b && path[|txs|] == after
  {
    if ApplyAll(b, txs) == Done(after) {
      var path := WalkOf(b, txs);
    }
    if path :| Walked(txs, path) && path[0] == b && path[|txs|] == after {
      WalkApplies(txs, path);
    }
  }

  lemma {:induction false} WalkOf(b: Books, txs: seq<Tx>) returns (path: seq<Books>)
    requires ApplyAll(b, txs).Done?
    ensures Walked(txs, path) && path[0] == b && path[|txs|] == ApplyAll(b, txs).books
    decreases txs
  {
    if txs == [] {
      path := [b];
    } else {
      var rest := WalkOf(Apply(b, txs[0].body).books, txs[1..]);
      WalkedMore(txs, rest, b);
      path := [b] + rest;
    }
  }

  lemma {:induction false} WalkApplies(txs: seq<Tx>, path: seq<Books>)
    requires Walked(txs, path)
    ensures ApplyAll(path[0], txs) == Done(path[|txs|])
    decreases txs
  {
    if txs != [] {
      WalkedRest(txs, path);
      WalkApplies(txs[1..], path[1..]);
    }
  }
}
