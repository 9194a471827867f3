/** Block independence: both validators check the ops of a block on a scratch copy that skips plain and
    coinbase transactions, then apply everything.  The two passes agree, and the check protects the real
    books, when no op-less transaction of the block pays a pool that an op of the same block reads. */
module BlockIndependence {
  import opened Wrappers
  import opened LedgerTypes
  import opened Rounding
  import opened Ledger
  import opened LedgerTotals
  import opened LedgerSolvency

  /** The pool whose reserves decide what an op does. */
  function PoolRead(t: TxBody): Option<Addr> {
    match t.op
    case Some(StakeDeposit) => Some(StakePool)
    case Some(StakeWithdraw) => Some(StakePool)
    case Some(AddLiquidity(k, _, _)) => Some(PoolAddr(k))
    case Some(Swap(k, _, _, _)) => Some(PoolAddr(k))
    case Some(RemoveLiquidity(k, _)) => Some(PoolAddr(k))
    case _ => None
  }

  /** Who receives the plain and coinbase transactions of a block. */
  function Paid(txs: seq<Tx>): set<Addr> {
    set i | 0 <= i < |txs| && txs[i].body.op.None? :: txs[i].body.recipient
  }

  predicate ReadsOutside(paid: set<Addr>, t: TxBody) {
    PoolRead(t).Some? ==> PoolRead(t).value !in paid
  }

  predicate Independent(txs: seq<Tx>) {
    forall i :: 0 <= i < |txs| ==> ReadsOutside(Paid(txs), txs[i].body)
  }

  /** What the two passes agree on: every asset other than OCN, the OCN of every pool that is not paid, and
      all supplies. */
  predicate Shared(paid: set<Addr>, k: Key) {
    k.1 != OCN || (k.0.Keyless() && k.0 !in paid)
  }

  ghost predicate Agree(paid: set<Addr>, s: Books, f: Books) {
    && s.supply == f.supply
    && forall k: Key :: Shared(paid, k) ==> At(s.balances, k) == At(f.balances, k)
  }

  function OpsOf(txs: seq<Tx>): seq<Tx> {
    if txs == [] then []
    else (if txs[0].body.op.None? then [] else [txs[0]]) + OpsOf(txs[1..])
  }

  // --- One credit, one transaction ---

  lemma CreditAgrees(paid: set<Addr>, s: Books, f: Books, who: Addr, asset: Asset, amount: int)
    requires Agree(paid, s, f)
    ensures Agree(paid, Credit(s, who, asset, amount), Credit(f, who, asset, amount))
  {
    var s1, f1 := Credit(s, who, asset, amount), Credit(f, who, asset, amount);
    forall k: Key | Shared(paid, k) ensures At(s1.balances, k) == At(f1.balances, k) {
      assert At(s.balances, k) == At(f.balances, k);
    }
  }

  lemma FeeAgrees(paid: set<Addr>, s: Books, f: Books, t: TxBody)
    requires Agree(paid, s, f)
    ensures Agree(paid, FeeOnly(s, t), FeeOnly(f, t))
  {
    if t.sender != Network {
      CreditAgrees(paid, s, f, t.sender, OCN, -t.fee);
    }
  }

  lemma MintAgrees(paid: set<Addr>, s: Books, f: Books, asset: Asset, amount: int)
    requires Agree(paid, s, f)
    ensures Agree(paid, Mint(s, asset, amount), Mint(f, asset, amount))
  {
    assert Mint(s, asset, amount).balances == s.balances && Mint(f, asset, amount).balances == f.balances;
  }

  lemma DepositAgrees(paid: set<Addr>, s: Books, f: Books, t: TxBody, minted: int)
    requires Agree(paid, s, f) && t.sender.User?
    ensures Agree(paid, PostDeposit(s, t, minted), PostDeposit(f, t, minted))
  {
    var cost := -(t.amount + t.fee);
    TwoCreditsAgree(paid, s, f, t.sender, OCN, cost, t.recipient, OCN, t.amount);
    var s2, f2 := Credit(Credit(s, t.sender, OCN, cost), t.recipient, OCN, t.amount),
                  Credit(Credit(f, t.sender, OCN, cost), t.recipient, OCN, t.amount);
    MintedAgrees(paid, s2, f2, t.sender, STOCN, minted);
    assert PostDeposit(s, t, minted) == Mint(Credit(s2, t.sender, STOCN, minted), STOCN, minted);
    assert PostDeposit(f, t, minted) == Mint(Credit(f2, t.sender, STOCN, minted), STOCN, minted);
  }

  lemma MintedAgrees(paid: set<Addr>, s: Books, f: Books, who: Addr, asset: Asset, amount: int)
    requires Agree(paid, s, f)
    ensures Agree(paid, Mint(Credit(s, who, asset, amount), asset, amount), Mint(Credit(f, who, asset, amount), asset, amount))
  {
    CreditAgrees(paid, s, f, who, asset, amount);
    MintAgrees(paid, Credit(s, who, asset, amount), Credit(f, who, asset, amount), asset, amount);
  }

  lemma WithdrawAgrees(paid: set<Addr>, s: Books, f: Books, t: TxBody, redeemed: int)
    requires Agree(paid, s, f) && t.sender.User?
    ensures Agree(paid, PostWithdraw(s, t, redeemed), PostWithdraw(f, t, redeemed))
  {
    MintedAgrees(paid, s, f, t.sender, STOCN, -t.amount);
    var s1, f1 := Mint(Credit(s, t.sender, STOCN, -t.amount), STOCN, -t.amount),
                  Mint(Credit(f, t.sender, STOCN, -t.amount), STOCN, -t.amount);
    FeeAgrees(paid, s1, f1, t);
    var s2, f2 := FeeOnly(s1, t), FeeOnly(f1, t);
    CreditAgrees(paid, s2, f2, StakePool, OCN, -redeemed);
    CreditAgrees(paid, Credit(s2, StakePool, OCN, -redeemed), Credit(f2, StakePool, OCN, -redeemed),
                 t.recipient, OCN, redeemed);
  }

  lemma TwoCreditsAgree(paid: set<Addr>, s: Books, f: Books, who: Addr, x: Asset, m: int, other: Addr, y: Asset, n: int)
    requires Agree(paid, s, f)
    ensures Agree(paid, Credit(Credit(s, who, x, m), other, y, n), Credit(Credit(f, who, x, m), other, y, n))
  {
    CreditAgrees(paid, s, f, who, x, m);
    CreditAgrees(paid, Credit(s, who, x, m), Credit(f, who, x, m), other, y, n);
  }

  lemma AddAgrees(paid: set<Addr>, s: Books, f: Books, t: TxBody, k: PoolKey, amountA: int, amountB: int, minted: int)
    requires Agree(paid, s, f) && t.sender.User?
    ensures Agree(paid, PostAdd(s, t, k, amountA, amountB, minted), PostAdd(f, t, k, amountA, amountB, minted))
  {
    var pool, a, z, lp := PoolAddr(k), Plain(k.a), Plain(k.b), Lp(k);
    FeeAgrees(paid, s, f, t);
    TwoCreditsAgree(paid, FeeOnly(s, t), FeeOnly(f, t), t.sender, a, -amountA, t.sender, z, -amountB);
    var s1, f1 := Credit(Credit(FeeOnly(s, t), t.sender, a, -amountA), t.sender, z, -amountB),
                  Credit(Credit(FeeOnly(f, t), t.sender, a, -amountA), t.sender, z, -amountB);
    TwoCreditsAgree(paid, s1, f1, pool, a, amountA, pool, z, amountB);
    MintedAgrees(paid, Credit(Credit(s1, pool, a, amountA), pool, z, amountB),
                 Credit(Credit(f1, pool, a, amountA), pool, z, amountB), t.sender, lp, minted);
  }

  lemma SwapAgrees(paid: set<Addr>, s: Books, f: Books, t: TxBody, k: PoolKey, assetIn: Asset, amountIn: int, out: int)
    requires Agree(paid, s, f) && t.sender.User?
    ensures Agree(paid, PostSwap(s, t, k, assetIn, amountIn, out), PostSwap(f, t, k, assetIn, amountIn, out))
  {
    var pool, assetOut := PoolAddr(k), OtherSide(k, assetIn);
    FeeAgrees(paid, s, f, t);
    CreditAgrees(paid, FeeOnly(s, t), FeeOnly(f, t), t.sender, assetIn, -amountIn);
    var s1, f1 := Credit(FeeOnly(s, t), t.sender, assetIn, -amountIn), Credit(FeeOnly(f, t), t.sender, assetIn, -amountIn);
    TwoCreditsAgree(paid, s1, f1, pool, assetIn, amountIn, pool, assetOut, -out);
    CreditAgrees(paid, Credit(Credit(s1, pool, assetIn, amountIn), pool, assetOut, -out),
                 Credit(Credit(f1, pool, assetIn, amountIn), pool, assetOut, -out), t.recipient, assetOut, out);
  }

  lemma PayOutAgrees(paid: set<Addr>, s: Books, f: Books, pool: Addr, to: Addr, a: Asset, outA: int, z: Asset, outB: int)
    requires Agree(paid, s, f)
    ensures Agree(paid, Credit(Credit(Credit(Credit(s, pool, a, -outA), pool, z, -outB), to, a, outA), to, z, outB),
                  Credit(Credit(Credit(Credit(f, pool, a, -outA), pool, z, -outB), to, a, outA), to, z, outB))
  {
    TwoCreditsAgree(paid, s, f, pool, a, -outA, pool, z, -outB);
    TwoCreditsAgree(paid, Credit(Credit(s, pool, a, -outA), pool, z, -outB),
                    Credit(Credit(f, pool, a, -outA), pool, z, -outB), to, a, outA, to, z, outB);
  }

  lemma RemoveAgrees(paid: set<Addr>, s: Books, f: Books, t: TxBody, k: PoolKey, shares: int, outA: int, outB: int)
    requires Agree(paid, s, f) && t.sender.User?
    ensures Agree(paid, PostRemove(s, t, k, shares, outA, outB), PostRemove(f, t, k, shares, outA, outB))
  {
    var lp := Lp(k);
    MintedAgrees(paid, s, f, t.sender, lp, -shares);
    var s0, f0 := Mint(Credit(s, t.sender, lp, -shares), lp, -shares), Mint(Credit(f, t.sender, lp, -shares), lp, -shares);
    FeeAgrees(paid, s0, f0, t);
    PayOutAgrees(paid, FeeOnly(s0, t), FeeOnly(f0, t), PoolAddr(k), t.recipient, Plain(k.a), outA, Plain(k.b), outB);
  }

  lemma TransferAgrees(paid: set<Addr>, s: Books, f: Books, t: TxBody, asset: Asset)
    requires Agree(paid, s, f) && t.sender.User? && asset != OCN
    ensures Agree(paid, Transfer(s, t, asset).books, Transfer(f, t, asset).books)
  {
    FeeAgrees(paid, s, f, t);
    TwoCreditsAgree(paid, FeeOnly(s, t), FeeOnly(f, t), t.sender, asset, -t.amount, t.recipient, asset, t.amount);
  }

  /** An op that reads no paid pool does the same on both copies: the same refusal, the same debits, and
      books that still agree. */
  lemma OpAgrees(paid: set<Addr>, s: Books, f: Books, t: TxBody)
    requires Agree(paid, s, f) && OpValid(t) && t.sender.User? && ReadsOutside(paid, t)
    ensures Apply(s, t).Applied? <==> Apply(f, t).Applied?
    ensures Apply(s, t).Applied? ==>
      Agree(paid, Apply(s, t).books, Apply(f, t).books) && Apply(s, t).debited == Apply(f, t).debited
  {
    match t.op
    case Some(StakeDeposit) =>
      assert Shared(paid, (StakePool, OCN));
      DepositAgrees(paid, s, f, t, MintedStake(Bal(s, StakePool, OCN), At(s.supply, STOCN), t.amount));
    case Some(StakeWithdraw) =>
      assert Shared(paid, (StakePool, OCN));
      WithdrawAgrees(paid, s, f, t, RedeemedStake(Bal(s, StakePool, OCN), At(s.supply, STOCN), t.amount));
    case Some(AddLiquidity(k, amountA, amountB)) =>
      PoolAgrees(paid, s, f, k);
      AddAgrees(paid, s, f, t, k, amountA, amountB,
                MintedShares(Bal(s, PoolAddr(k), Plain(k.a)), Bal(s, PoolAddr(k), Plain(k.b)), At(s.supply, Lp(k)),
                             amountA, amountB));
    case Some(Swap(k, assetIn, amountIn, minOut)) =>
      PoolAgrees(paid, s, f, k);
      SwapAgrees(paid, s, f, t, k, assetIn, amountIn,
                 SwapOut(Bal(s, PoolAddr(k), assetIn), Bal(s, PoolAddr(k), OtherSide(k, assetIn)), amountIn));
    case Some(RemoveLiquidity(k, shares)) =>
      PoolAgrees(paid, s, f, k);
      var supply := At(s.supply, Lp(k));
      RemoveAgrees(paid, s, f, t, k, shares, ShareOut(Bal(s, PoolAddr(k), Plain(k.a)), supply, shares),
                   ShareOut(Bal(s, PoolAddr(k), Plain(k.b)), supply, shares));
    case Some(TransferAsset(asset)) => TransferAgrees(paid, s, f, t, asset);
  }

  lemma PoolAgrees(paid: set<Addr>, s: Books, f: Books, k: PoolKey)
    requires Agree(paid, s, f) && PoolAddr(k) !in paid
    ensures Bal(s, PoolAddr(k), Plain(k.a)) == Bal(f, PoolAddr(k), Plain(k.a))
    ensures Bal(s, PoolAddr(k), Plain(k.b)) == Bal(f, PoolAddr(k), Plain(k.b))
  {
    assert Shared(paid, (PoolAddr(k), Plain(k.a))) && Shared(paid, (PoolAddr(k), Plain(k.b)));
  }

  /** A plain or coinbase transaction moves only OCN, to a paid address. */
  lemma PlainAgrees(paid: set<Addr>, s: Books, f: Books, tx: Tx)
    requires Agree(paid, s, f) && TxValid(tx) && tx.body.op.None? && tx.body.recipient in paid
    ensures Apply(f, tx.body).Applied? && Agree(paid, s, Apply(f, tx.body).books)
  {
  }

  // --- The OCN of paid pools ---

  /** Net OCN that plain and coinbase transactions pay to an address. */
  function PaidTo(who: Addr, txs: seq<Tx>): int {
    if txs == [] then 0
    else
      (if txs[0].body.op.None? && txs[0].body.recipient == who then txs[0].body.amount else 0) + PaidTo(who, txs[1..])
  }

  /** Ops leave the OCN of a pool they do not read alone. */
  lemma OpLeavesPool(b: Books, t: TxBody, pool: Addr)
    requires OpValid(t) && t.sender.User? && Apply(b, t).Applied? && pool.Keyless() && PoolRead(t) != Some(pool)
    ensures Bal(Apply(b, t).books, pool, OCN) == Bal(b, pool, OCN)
  {
  }

  lemma PlainPaysPool(b: Books, tx: Tx, pool: Addr)
    requires TxValid(tx) && tx.body.op.None? && pool.Keyless()
    ensures Apply(b, tx.body).Applied?
    ensures Bal(Apply(b, tx.body).books, pool, OCN)
      == Bal(b, pool, OCN) + if tx.body.recipient == pool then tx.body.amount else 0
  {
  }

  // --- A whole block ---

  ghost predicate Checkable(paid: set<Addr>, txs: seq<Tx>) {
    && (forall i :: 0 <= i < |txs| ==> TxValid(txs[i]) && ReadsOutside(paid, txs[i].body))
    && (forall i :: 0 <= i < |txs| && txs[i].body.op.None? ==> txs[i].body.recipient in paid)
  }

  lemma CheckableTail(paid: set<Addr>, txs: seq<Tx>)
    requires txs != [] && Checkable(paid, txs)
    ensures Checkable(paid, txs[1..]) && TxValid(txs[0]) && ReadsOutside(paid, txs[0].body)
    ensures txs[0].body.op.None? ==> txs[0].body.recipient in paid
  {
    var rest := txs[1..];
    forall i | 0 <= i < |rest| ensures rest[i] == txs[i + 1] {
    }
  }

  /** The scratch copy is solvent and balanced, and the real books agree with it. */
  ghost predicate InStep(paid: set<Addr>, s: Books, f: Books) {
    Agree(paid, s, f) && Solvent(s) && Balanced(s)
  }

  lemma OpInStep(paid: set<Addr>, s: Books, f: Books, t: TxBody)
    requires InStep(paid, s, f) && OpValid(t) && t.sender.User? && ReadsOutside(paid, t)
    requires Apply(s, t).Applied? && NoneNegative(Apply(s, t).books, Apply(s, t).debited)
    ensures Apply(f, t).Applied? && InStep(paid, Apply(s, t).books, Apply(f, t).books)
  {
    OpAgrees(paid, s, f, t);
    OpKeepsSolvent(s, t);
    ApplyConserves(s, t);
    ConservesBalanced(s, Apply(s, t).books, t);
  }

  lemma {:induction false} Lockstep(paid: set<Addr>, s: Books, f: Books, txs: seq<Tx>)
    requires InStep(paid, s, f) && Checkable(paid, txs) && OpsPass(s, txs)
    ensures ApplyAll(f, txs).Done? && ApplyAll(s, OpsOf(txs)).Done?
    ensures InStep(paid, ApplyAll(s, OpsOf(txs)).books, ApplyAll(f, txs).books)
    decreases txs
  {
    if txs != [] {
      CheckableTail(paid, txs);
      var t := txs[0].body;
      if t.op.None? {
        PlainAgrees(paid, s, f, txs[0]);
        Lockstep(paid, s, Apply(f, t).books, txs[1..]);
        assert OpsOf(txs) == OpsOf(txs[1..]);
      } else {
        OpInStep(paid, s, f, t);
        Lockstep(paid, Apply(s, t).books, Apply(f, t).books, txs[1..]);
        assert OpsOf(txs)[1..] == OpsOf(txs[1..]);
      }
    }
  }

  lemma {:induction false} PaidPoolBalance(paid: set<Addr>, s: Books, f: Books, txs: seq<Tx>, pool: Addr)
    requires Checkable(paid, txs) && OpsPass(s, txs) && ApplyAll(f, txs).Done?
    requires pool in paid && pool.Keyless()
    ensures Bal(ApplyAll(f, txs).books, pool, OCN) == Bal(f, pool, OCN) + PaidTo(pool, txs)
    decreases txs
  {
    if txs != [] {
      CheckableTail(paid, txs);
      var t := txs[0].body;
      if t.op.None? {
        PlainPaysPool(f, txs[0], pool);
        PaidPoolBalance(paid, s, Apply(f, t).books, txs[1..], pool);
      } else {
        OpLeavesPool(f, t, pool);
        PaidPoolBalance(paid, Apply(s, t).books, Apply(f, t).books, txs[1..], pool);
      }
    }
  }

  /** No pool is paid a net amount that its balance before the block does not cover; neither validator bounds a
      single coinbase amount from below, only their sum. */
  ghost predicate PoolsCovered(b: Books, txs: seq<Tx>) {
    forall pool :: pool in Paid(txs) && pool.Keyless() ==> Bal(b, pool, OCN) + PaidTo(pool, txs) >= 0
  }

  /** On an independent block the check on the scratch copy is enough: from solvent, balanced books the second
      pass completes and agrees with the scratch copy, and it leaves the books solvent exactly when no pool is
      overdrawn by the coinbases that name it. */
  lemma CheckingOpsIsSound(b: Books, txs: seq<Tx>)
    requires Solvent(b) && Balanced(b) && OpsPass(b, txs)
    requires Independent(txs) && forall i :: 0 <= i < |txs| ==> TxValid(txs[i])
    ensures ApplyAll(b, txs).Done? && ApplyAll(b, OpsOf(txs)).Done?
    ensures Agree(Paid(txs), ApplyAll(b, OpsOf(txs)).books, ApplyAll(b, txs).books)
    ensures Balanced(ApplyAll(b, txs).books)
    ensures Solvent(ApplyAll(b, txs).books) <==> PoolsCovered(b, txs)
  {
    var paid := Paid(txs);
    assert forall i :: 0 <= i < |txs| && txs[i].body.op.None? ==> txs[i].body.recipient in paid;
    Lockstep(paid, b, b, txs);
    BlockConserves(b, txs);
    forall pool | pool in paid && pool.Keyless()
      ensures Bal(ApplyAll(b, txs).books, pool, OCN) == Bal(b, pool, OCN) + PaidTo(pool, txs)
    {
      PaidPoolBalance(paid, b, b, txs, pool);
    }
    SolventByPools(paid, b, ApplyAll(b, OpsOf(txs)).books, ApplyAll(b, txs).books, txs);
  }

  lemma SolventByPools(paid: set<Addr>, b: Books, s: Books, f: Books, txs: seq<Tx>)
    requires InStep(paid, s, f) && paid == Paid(txs)
    requires forall pool :: pool in paid && pool.Keyless() ==> Bal(f, pool, OCN) == Bal(b, pool, OCN) + PaidTo(pool, txs)
    ensures Solvent(f) <==> PoolsCovered(b, txs)
  {
    if PoolsCovered(b, txs) {
      forall k: Key | Protected(k) ensures At(f.balances, k) >= 0 {
        if Shared(paid, k) {
          assert At(s.balances, k) >= 0;
        } else {
          assert k.0 in paid && k.0.Keyless() && At(f.balances, k) == Bal(f, k.0, OCN);
        }
      }
    }
    if Solvent(f) {
      forall pool | pool in paid && pool.Keyless() ensures Bal(b, pool, OCN) + PaidTo(pool, txs) >= 0 {
        assert Protected((pool, OCN));
      }
    }
  }

  lemma {:induction false} PaidToNonNegative(who: Addr, txs: seq<Tx>)
    requires forall i :: 0 <= i < |txs| ==> TxValid(txs[i])
    requires NoClawback(txs) && who.Keyless()
    ensures PaidTo(who, txs) >= 0
  {
    if txs != [] {
      assert TxValid(txs[0]);
      PaidToNonNegative(who, txs[1..]);
    }
  }

  /** A sufficient condition that can be read off the block: no pool is named by a negative coinbase. */
  predicate NoClawback(txs: seq<Tx>) {
    forall i :: 0 <= i < |txs| && txs[i].body.sender == Network && txs[i].body.recipient.Keyless() ==>
      txs[i].body.amount >= 0
  }

  lemma NoClawbackCovers(b: Books, txs: seq<Tx>)
    requires Solvent(b) && NoClawback(txs) && forall i :: 0 <= i < |txs| ==> TxValid(txs[i])
    ensures PoolsCovered(b, txs)
  {
    forall pool | pool in Paid(txs) && pool.Keyless() ensures Bal(b, pool, OCN) + PaidTo(pool, txs) >= 0 {
      PaidToNonNegative(pool, txs);
      assert Protected((pool, OCN));
    }
  }
}
