/** Blocks, votes, quorum certificates and the committee of the chained-HotStuff layer.

    Hashes and signatures are symbolic.  A hash is either the hash of a block, `HashOf(block)`, or a string
    that no block hashes to; so hashing is injective and every hash names at most one block.  A signature is
    the pair of the signing key and the message; an aggregate is the multiset of the signatures added up. */
module HotStuffTypes {
  import opened Wrappers
  import L = LedgerTypes

  datatype Hash = Opaque(id: nat) | HashOf(block: Block)

  datatype Payload = NoPayload | Checkpoint(height: int, digest: L.BlockHash) | Heartbeat(view: int) | Command(id: nat)

  /** Keys are named by the committee index they belong to; a key outside the committee has another number. */
  datatype Block = Block(view: int, parent: Hash, payload: Payload, proposer: Option<int>, justify: Option<QC>)

  datatype QC = QC(hash: Hash, view: int, signers: seq<int>, agg: AggSig)

  datatype Message = VoteMessage(view: int, hash: Hash) | NewViewMessage(view: int, hash: Hash, qcView: int)

  datatype Sig = Sig(key: int, msg: Message) | BadSig

  datatype AggSig = NoSig | Agg(parts: multiset<Sig>)

  datatype Vote = Vote(hash: Hash, view: int, voter: int, sig: Sig)

  datatype NewViewMsg = NewViewMsg(view: int, highQc: QC, sender: int, sig: Sig)

  /** The sentinel parent of genesis; it is not the hash of any block. */
  const NO_PARENT := Opaque(0)
  const GENESIS_BLOCK := Block(0, NO_PARENT, NoPayload, None, None)
  const GENESIS := HashOf(GENESIS_BLOCK)
  const GENESIS_QC := QC(GENESIS, 0, [], NoSig)

  datatype Committee = Committee(n: nat) {
    /** The constructor refuses fewer than four validators. */
    predicate Valid() {
      n >= 4
    }

    function F(): nat
      requires Valid()
    {
      (n - 1) / 3
    }

    function QuorumSize(): nat
      requires Valid()
    {
      2 * F() + 1
    }

    function LeaderForView(view: int): int
      requires Valid()
    {
      view % n
    }

    function IndexOf(pubkey: Option<int>): Option<int> {
      if pubkey.Some? && 0 <= pubkey.value < n then pubkey else None
    }

    /** `pubkeys[i]` on a list: negative positions count from the end, others outside the list raise. */
    function KeyAt(i: int): Option<int> {
      var k: int := if i < 0 then i + n else i;
      if 0 <= k < n then Some(k) else None
    }
  }

  predicate NoRepeats(s: seq<int>) {
    forall i, j :: 0 <= i < j < |s| ==> s[i] != s[j]
  }

  /** What the aggregate of one signature per listed signer must be; None when a position is out of range. */
  function ExpectedParts(c: Committee, signers: seq<int>, msg: Message): Option<multiset<Sig>> {
    if signers == [] then Some(multiset{})
    else
      var key := c.KeyAt(signers[0]);
      var rest := ExpectedParts(c, signers[1..], msg);
      if key.None? || rest.None? then None else Some(multiset{Sig(key.value, msg)} + rest.value)
  }

  /** QuorumCertificate.verify */
  predicate Verifies(qc: QC, c: Committee)
    requires c.Valid()
  {
    && |qc.signers| >= c.QuorumSize()
    && NoRepeats(qc.signers)
    && var parts := ExpectedParts(c, qc.signers, VoteMessage(qc.view, qc.hash));
       parts.Some? && qc.agg == Agg(parts.value)
  }

  /** bls.Verify of one vote under the key of its claimed voter. */
  predicate VoteVerifies(v: Vote, c: Committee) {
    var key := c.KeyAt(v.voter);
    key.Some? && v.sig == Sig(key.value, VoteMessage(v.view, v.hash))
  }

  predicate NewViewVerifies(m: NewViewMsg, c: Committee) {
    var key := c.KeyAt(m.sender);
    key.Some? && m.sig == Sig(key.value, NewViewMessage(m.view, m.highQc.hash, m.highQc.view))
  }

  // --- Ancestry ---

  /** The hashes from the root of a block's history down to the block itself. */
  function Path(h: Hash): (r: seq<Hash>)
    ensures |r| > 0 && r[|r| - 1] == h
  {
    match h
    case Opaque(_) => [h]
    case HashOf(b) => Path(b.parent) + [h]
  }

  ghost predicate IsAncestor(a: Hash, h: Hash) {
    a in Path(h)
  }

  /** Every prefix of a path is the path of its own last hash. */
  lemma {:induction false} PathPrefix(h: Hash, k: nat)
    requires k < |Path(h)|
    ensures Path(Path(h)[k]) == Path(h)[..k + 1]
  {
    if k == |Path(h)| - 1 {
      assert Path(h)[..k + 1] == Path(h);
    } else {
      PathPrefix(h.block.parent, k);
      assert Path(h)[..k + 1] == Path(h.block.parent)[..k + 1];
    }
  }

  lemma AncestorPrefix(a: Hash, h: Hash)
    requires IsAncestor(a, h)
    ensures Path(a) <= Path(h)
  {
    var k :| 0 <= k < |Path(h)| && Path(h)[k] == a;
    PathPrefix(h, k);
  }

  lemma PrefixAncestor(a: Hash, h: Hash)
    requires Path(a) <= Path(h)
    ensures IsAncestor(a, h)
  {
    assert Path(h)[|Path(a)| - 1] == a;
  }

  lemma AncestorTrans(a: Hash, b: Hash, c: Hash)
    requires IsAncestor(a, b) && IsAncestor(b, c)
    ensures IsAncestor(a, c)
  {
    AncestorPrefix(a, b);
    AncestorPrefix(b, c);
    PrefixAncestor(a, c);
  }

  /** No hash occurs twice on a path: the tree of hashes has no cycles. */
  lemma PathInjective(h: Hash, i: nat, j: nat)
    requires i < |Path(h)| && j < |Path(h)| && Path(h)[i] == Path(h)[j]
    ensures i == j
  {
    PathPrefix(h, i);
    PathPrefix(h, j);
  }

  lemma ParentNotSelf(b: Block)
    ensures b.parent != HashOf(b) && !IsAncestor(HashOf(b), b.parent)
  {
    if IsAncestor(HashOf(b), b.parent) {
      AncestorPrefix(HashOf(b), b.parent);
      assert false;
    }
  }
}
