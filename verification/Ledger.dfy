/** Transaction accounting: what each kind of transaction does to balances and supplies, and the structural
    and balance checks applied to the ones that carry an op. */
module Ledger {
  import opened Wrappers
  import opened LedgerTypes
  import opened Rounding

  type Key = (Addr, Asset)

  datatype Books = Books(balances: map<Key, int>, supply: map<Asset, int>)

  const EMPTY_BOOKS := Books(map[], map[])

  /** The books after a transaction with the keys it debited, or a swap refused for slippage. */
  datatype Applied = Applied(books: Books, debited: seq<Key>) | Slippage

  const MIN_FEE := 10_000
  const FEE_NUMERATOR := 997
  const FEE_DENOMINATOR := 1000

  function At<K>(m: map<K, int>, k: K): int {
    if k in m then m[k] else 0
  }

  function Credit(b: Books, who: Addr, asset: Asset, amount: int): Books {
    b.(balances := b.balances[(who, asset) := At(b.balances, (who, asset)) + amount])
  }

  function Mint(b: Books, asset: Asset, amount: int): Books {
    b.(supply := b.supply[asset := At(b.supply, asset) + amount])
  }

  function Bal(b: Books, who: Addr, asset: Asset): int {
    At(b.balances, (who, asset))
  }

  // --- Amounts computed by the protocol ---

  /** stOCN minted for a deposit: the amount divided by the pool's OCN-per-stOCN rate. */
  function MintedStake(pool: int, supply: int, amount: int): int {
    if supply <= 0 || pool <= 0 then amount else RoundDiv(amount * supply, pool)
  }

  /** OCN redeemed for stOCN: the amount multiplied by the rate. */
  function RedeemedStake(pool: int, supply: int, amount: int): int {
    if supply <= 0 then amount else RoundDiv(amount * pool, supply)
  }

  /** Liquidity shares for a deposit of both sides: the root of the product into an empty pool, otherwise the
      smaller of the two proportions.  Validated amounts are positive. */
  function MintedShares(reserveA: int, reserveB: int, supply: int, amountA: int, amountB: int): int {
    if supply <= 0 || reserveA <= 0 || reserveB <= 0 then
      if amountA * amountB < 0 then 0 else NearestRoot(amountA * amountB)
    else if amountA * reserveB <= amountB * reserveA then RoundDiv(amountA * supply, reserveA)
    else RoundDiv(amountB * supply, reserveB)
  }

  /** Constant product with the fee taken from the input side. */
  function SwapOut(reserveIn: int, reserveOut: int, amountIn: int): int {
    var afterFee := amountIn * FEE_NUMERATOR;
    var denominator := reserveIn * FEE_DENOMINATOR + afterFee;
    if denominator > 0 then RoundDiv(afterFee * reserveOut, denominator) else 0
  }

  /** One side of a liquidity withdrawal. */
  function ShareOut(reserve: int, supply: int, shares: int): int {
    if supply > 0 then RoundDiv(reserve * shares, supply) else 0
  }

  // --- One transaction ---

  function FeeOnly(b: Books, t: TxBody): Books {
    if t.sender == Network then b else Credit(b, t.sender, OCN, -t.fee)
  }

  function PostDeposit(b: Books, t: TxBody, minted: int): Books {
    var b1 := if t.sender == Network then b else Credit(b, t.sender, OCN, -(t.amount + t.fee));
    var b2 := Credit(b1, t.recipient, OCN, t.amount);
    Mint(Credit(b2, t.sender, STOCN, minted), STOCN, minted)
  }

  function Deposit(b: Books, t: TxBody): Applied {
    var minted := MintedStake(Bal(b, StakePool, OCN), At(b.supply, STOCN), t.amount);
    Applied(PostDeposit(b, t, minted), if t.sender == Network then [] else [(t.sender, OCN)])
  }

  function PostWithdraw(b: Books, t: TxBody, redeemed: int): Books {
    var b1 := Mint(Credit(b, t.sender, STOCN, -t.amount), STOCN, -t.amount);
    var b2 := Credit(FeeOnly(b1, t), StakePool, OCN, -redeemed);
    Credit(b2, t.recipient, OCN, redeemed)
  }

  /** The pool's own OCN is debited here without being listed. */
  function Withdraw(b: Books, t: TxBody): Applied {
    var redeemed := RedeemedStake(Bal(b, StakePool, OCN), At(b.supply, STOCN), t.amount);
    Applied(PostWithdraw(b, t, redeemed), [(t.sender, STOCN)] + if t.sender == Network then [] else [(t.sender, OCN)])
  }

  function PostAdd(b: Books, t: TxBody, k: PoolKey, amountA: int, amountB: int, minted: int): Books {
    var pool, a, z, lp := PoolAddr(k), Plain(k.a), Plain(k.b), Lp(k);
    var b1 := if t.sender == Network then b
              else Credit(Credit(FeeOnly(b, t), t.sender, a, -amountA), t.sender, z, -amountB);
    var b2 := Credit(Credit(b1, pool, a, amountA), pool, z, amountB);
    Mint(Credit(b2, t.sender, lp, minted), lp, minted)
  }

  function AddTo(b: Books, t: TxBody, k: PoolKey, amountA: int, amountB: int): Applied {
    var pool, a, z, lp := PoolAddr(k), Plain(k.a), Plain(k.b), Lp(k);
    var minted := MintedShares(Bal(b, pool, a), Bal(b, pool, z), At(b.supply, lp), amountA, amountB);
    Applied(PostAdd(b, t, k, amountA, amountB, minted),
            if t.sender == Network then [] else [(t.sender, OCN), (t.sender, a), (t.sender, z)])
  }

  function OtherSide(k: PoolKey, assetIn: Asset): Asset {
    if assetIn == Plain(k.a) then Plain(k.b) else Plain(k.a)
  }

  function PostSwap(b: Books, t: TxBody, k: PoolKey, assetIn: Asset, amountIn: int, out: int): Books {
    var pool, assetOut := PoolAddr(k), OtherSide(k, assetIn);
    var b1 := if t.sender == Network then b else Credit(FeeOnly(b, t), t.sender, assetIn, -amountIn);
    var b2 := Credit(Credit(b1, pool, assetIn, amountIn), pool, assetOut, -out);
    Credit(b2, t.recipient, assetOut, out)
  }

  function SwapIn(b: Books, t: TxBody, k: PoolKey, assetIn: Asset, amountIn: int, minOut: int): Applied {
    var pool, assetOut := PoolAddr(k), OtherSide(k, assetIn);
    var out := SwapOut(Bal(b, pool, assetIn), Bal(b, pool, assetOut), amountIn);
    if out < minOut then Slippage
    else
      Applied(PostSwap(b, t, k, assetIn, amountIn, out),
              (if t.sender == Network then [] else [(t.sender, OCN), (t.sender, assetIn)]) + [(pool, assetOut)])
  }

  function PostRemove(b: Books, t: TxBody, k: PoolKey, shares: int, outA: int, outB: int): Books {
    var pool, a, z, lp := PoolAddr(k), Plain(k.a), Plain(k.b), Lp(k);
    var b1 := FeeOnly(Mint(Credit(b, t.sender, lp, -shares), lp, -shares), t);
    var b2 := Credit(Credit(b1, pool, a, -outA), pool, z, -outB);
    Credit(Credit(b2, t.recipient, a, outA), t.recipient, z, outB)
  }

  function RemoveFrom(b: Books, t: TxBody, k: PoolKey, shares: int): Applied {
    var pool, a, z, lp := PoolAddr(k), Plain(k.a), Plain(k.b), Lp(k);
    var supply := At(b.supply, lp);
    var outA, outB := ShareOut(Bal(b, pool, a), supply, shares), ShareOut(Bal(b, pool, z), supply, shares);
    Applied(PostRemove(b, t, k, shares, outA, outB),
            [(t.sender, lp)] + (if t.sender == Network then [] else [(t.sender, OCN)]) + [(pool, a), (pool, z)])
  }

  function Transfer(b: Books, t: TxBody, asset: Asset): Applied {
    if t.sender == Network then Applied(Credit(b, t.recipient, asset, t.amount), [])
    else if asset == OCN then
      Applied(Credit(Credit(b, t.sender, OCN, -(t.amount + t.fee)), t.recipient, OCN, t.amount), [(t.sender, OCN)])
    else
      Applied(Credit(Credit(FeeOnly(b, t), t.sender, asset, -t.amount), t.recipient, asset, t.amount),
              [(t.sender, OCN), (t.sender, asset)])
  }

  /** `_apply_transaction_to_balance_dict` */
  function Apply(b: Books, t: TxBody): Applied {
    match t.op
    case Some(StakeDeposit) => Deposit(b, t)
    case Some(StakeWithdraw) => Withdraw(b, t)
    case Some(AddLiquidity(k, amountA, amountB)) => AddTo(b, t, k, amountA, amountB)
    case Some(Swap(k, assetIn, amountIn, minOut)) => SwapIn(b, t, k, assetIn, amountIn, minOut)
    case Some(RemoveLiquidity(k, shares)) => RemoveFrom(b, t, k, shares)
    case Some(TransferAsset(asset)) => Transfer(b, t, asset)
    case Some(Malformed(_)) => Transfer(b, t, OCN)
    case None => Transfer(b, t, OCN)
  }

  // --- Checks ---

  predicate CanonicalPool(k: PoolKey) {
    k.a < k.b
  }

  /** `_validate_op` */
  predicate OpValid(t: TxBody) {
    match t.op
    case Some(TransferAsset(asset)) => asset != OCN && t.amount > 0
    case Some(StakeDeposit) => t.recipient == StakePool && t.amount > 0
    case Some(StakeWithdraw) => t.recipient == t.sender && t.amount > 0
    case Some(AddLiquidity(k, amountA, amountB)) =>
      CanonicalPool(k) && t.recipient == PoolAddr(k) && amountA > 0 && amountB > 0
    case Some(Swap(k, assetIn, amountIn, minOut)) =>
      && CanonicalPool(k) && (assetIn == Plain(k.a) || assetIn == Plain(k.b))
      && amountIn > 0 && minOut >= 0 && t.recipient == t.sender
    case Some(RemoveLiquidity(k, shares)) => CanonicalPool(k) && shares > 0 && t.recipient == t.sender
    case Some(Malformed(_)) => false
    case None => false
  }

  /** `Transaction.is_valid`; only a user's key can hash to the sender of a signed transaction. */
  predicate TxValid(tx: Tx) {
    if tx.body.sender == Network then tx.body.op.None?
    else
      && (if tx.body.op.None? then tx.body.amount > 0 else tx.body.amount >= 0)
      && tx.body.fee >= MIN_FEE
      && tx.signed && tx.body.sender.User?
  }

  predicate NoneNegative(b: Books, keys: seq<Key>) {
    forall i :: 0 <= i < |keys| ==> At(b.balances, keys[i]) >= 0
  }

  // --- A block's transactions ---

  datatype Outcome = Done(books: Books) | Stopped(books: Books)

  /** All transactions in order; a refused swap stops the walk with whatever was applied before it. */
  function ApplyAll(b: Books, txs: seq<Tx>): Outcome
    decreases txs
  {
    if txs == [] then Done(b)
    else
      match Apply(b, txs[0].body)
      case Slippage => Stopped(b)
      case Applied(next, _) => ApplyAll(next, txs[1..])
  }

  /** The check on a scratch copy: only transactions with an op are applied, and no key one of them debits may
      end up negative. */
  predicate OpsPass(b: Books, txs: seq<Tx>)
    decreases txs
  {
    if txs == [] then true
    else if txs[0].body.op.None? then OpsPass(b, txs[1..])
    else
      && OpValid(txs[0].body)
      && var r := Apply(b, txs[0].body);
         r.Applied? && NoneNegative(r.books, r.debited) && OpsPass(r.books, txs[1..])
  }
}
