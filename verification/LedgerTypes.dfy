/** The values of the ledger: addresses, assets, transactions and blocks.

    Hashes are symbolic terms, so they are injective by construction: an address or a pool address is the
    term it is derived from, a transaction hash is the signed message, a block hash is the header it was
    computed over.  Amounts are integers in micro-units (10^-6 of a coin). */
module LedgerTypes {
  import opened Wrappers

  /** Plain names are numbered.  The source puts the two names of a pool in the order of their strings, the model in
      the order of their numbers; nothing depends on which comes first, since both sides are treated alike. */
  datatype Asset = Plain(name: nat) | Lp(pool: PoolKey)

  /** The string `a:b`; it need not be in canonical order until it has been validated. */
  datatype PoolKey = PoolKey(a: nat, b: nat)

  const OCN := Plain(0)
  const STOCN := Plain(1)

  /** `Network` is the coinbase sender "0"; the two pool addresses are hashes that no key matches. */
  datatype Addr = Network | User(id: nat) | StakePool | PoolAddr(pool: PoolKey) {
    predicate Keyless() {
      StakePool? || PoolAddr?
    }
  }

  datatype Op =
    | TransferAsset(asset: Asset)
    | StakeDeposit
    | StakeWithdraw
    | AddLiquidity(pool: PoolKey, amountA: int, amountB: int)
    | Swap(pool: PoolKey, assetIn: Asset, amountIn: int, minOut: int)
    | RemoveLiquidity(pool: PoolKey, lpAmount: int)
    | Malformed(code: nat)  // an unknown op, or op_data of the wrong shape

  /** Exactly the signed message: the signature and public key are not part of it. */
  datatype TxBody = TxBody(sender: Addr, recipient: Addr, amount: int, fee: int, time: int, op: Option<Op>)

  /** `signed` says that a public key is present, hashes to the sender, and verifies the signature. */
  datatype Tx = Tx(body: TxBody, signed: bool)

  datatype MerkleHash = ZeroRoot | Leaf(body: TxBody) | Node(left: MerkleHash, right: MerkleHash)

  datatype BlockHash = NoBlock | HeaderHash(header: Header)

  datatype Header = Header(index: int, timestamp: int, merkleRoot: MerkleHash, previous: BlockHash, target: int, nonce: int)

  datatype ChainBlock = ChainBlock(header: Header, txs: seq<Tx>, staker: Option<Addr>) {
    /** The staker's address is not one of the hashed header fields. */
    function Hash(): BlockHash {
      HeaderHash(header)
    }
  }
}
