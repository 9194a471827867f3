/** One replica's transitions as functions on values.  `BftReplica` is proved against them, and the step
    system runs them. */
module ReplicaLogic {
  import opened Wrappers
  import opened HotStuffTypes
  import opened SetFacts

  /** The dictionary of known blocks: every block is stored under its own hash. */
  type BlockStore = m: map<Hash, Block> | forall h :: h in m ==> h == HashOf(m[h]) witness map[]

  const MAX_STEPS: nat := 100_000

  datatype Replica = Replica(
    me: int,
    committee: Committee,
    blocks: BlockStore,
    highQc: QC,
    lockedQc: QC,
    currentView: int,
    committed: seq<Hash>,
    pendingVotes: map<(Hash, int), map<int, Sig>>,
    pendingNewViews: map<int, seq<NewViewMsg>>,
    votedViews: map<int, Hash>)

  function Initial(me: int, c: Committee): Replica {
    Replica(me, c, map[GENESIS := GENESIS_BLOCK], GENESIS_QC, GENESIS_QC, 1, [GENESIS], map[], map[], map[])
  }

  // --- Ancestry walks over the stored blocks ---

  /** `_extends`: the walk from h towards the root, given the number of steps still allowed. */
  predicate WalkFinds(blocks: BlockStore, h: Hash, ancestor: Hash, steps: nat) {
    if h in blocks && steps > 0 then h == ancestor || WalkFinds(blocks, blocks[h].parent, ancestor, steps - 1)
    else h == ancestor
  }

  /** `_commit_chain_up_to`: what the walk from h back to the first committed hash collects, oldest first. */
  function Uncommitted(blocks: BlockStore, committed: seq<Hash>, h: Hash): seq<Hash>
    decreases h
  {
    if h !in committed && h in blocks then
      assert h == HashOf(blocks[h]);
      Uncommitted(blocks, committed, blocks[h].parent) + [h]
    else []
  }

  // --- Quorum certificates: lock and commit ---

  function StoredParentOf(blocks: BlockStore, h: Hash): Option<QC> {
    if h in blocks then blocks[h].justify else None
  }

  /** The three-chain rule: the hash of b0 when `qc` certifies b2 and b0 <- b1 <- b2 have consecutive views. */
  function CommitTarget(blocks: BlockStore, qc: QC): Option<Hash> {
    var qc1 := StoredParentOf(blocks, qc.hash);
    if qc1.None? then None
    else
      var qc0 := StoredParentOf(blocks, qc1.value.hash);
      if qc0.None? || qc0.value.hash !in blocks then None
      else
        var b2, b1, b0 := blocks[qc.hash], blocks[qc1.value.hash], blocks[qc0.value.hash];
        if b1.view == b0.view + 1 && b2.view == b1.view + 1 && qc.view == b2.view then Some(HashOf(b0)) else None
  }

  function AfterCommit(blocks: BlockStore, committed: seq<Hash>, qc: QC): seq<Hash> {
    match CommitTarget(blocks, qc)
    case None => committed
    case Some(h) => if h in committed then committed else committed + Uncommitted(blocks, committed, h)
  }

  /** `_apply_qc` followed by `_try_advance_lock_and_commit`. */
  function ApplyQc(s: Replica, qc: QC): Replica {
    s.(highQc := if qc.view > s.highQc.view then qc else s.highQc,
       lockedQc := if qc.view > s.lockedQc.view then qc else s.lockedQc,
       committed := AfterCommit(s.blocks, s.committed, qc))
  }

  // --- Proposals and imports ---

  function Propose(s: Replica, payload: Payload): Block {
    Block(s.currentView, s.highQc.hash, payload, Some(s.me), Some(s.highQc))
  }

  /** A proposal passes the receivers' checks on its proposer exactly when the proposer leads its current view, and
      those on its certificate exactly when its own highest certificate is one that receivers accept. */
  lemma ProposalChecks(s: Replica, payload: Payload)
    requires s.committee.Valid()
    ensures RightfulProposer(s.committee, Propose(s, payload)) <==> s.me == s.committee.LeaderForView(s.currentView)
    ensures JustifyHolds(s.committee, Propose(s, payload)) <==> s.highQc.hash == GENESIS || Verifies(s.highQc, s.committee)
  {
    assert 0 <= s.committee.LeaderForView(s.currentView) < s.committee.n;
  }

  predicate SafeToVote(s: Replica, b: Block, qc: QC) {
    || HashOf(b) == s.lockedQc.hash
    || WalkFinds(s.blocks, b.parent, s.lockedQc.hash, MAX_STEPS)
    || qc.view > s.lockedQc.view
  }

  predicate RightfulProposer(c: Committee, b: Block)
    requires c.Valid()
  {
    c.IndexOf(b.proposer) == Some(c.LeaderForView(b.view))
  }

  /** The certificate a block carries is for its own parent, and verifies unless it names genesis. */
  predicate JustifyHolds(c: Committee, b: Block)
    requires c.Valid()
  {
    && b.justify.Some?
    && b.justify.value.hash == b.parent
    && (b.parent == GENESIS || Verifies(b.justify.value, c))
  }

  predicate WillVote(s: Replica, b: Block)
    requires s.committee.Valid()
  {
    && b.view == s.currentView
    && (b.view in s.votedViews ==> s.votedViews[b.view] == HashOf(b))
    && RightfulProposer(s.committee, b)
    && b.parent in s.blocks
    && JustifyHolds(s.committee, b)
    && SafeToVote(s, b, b.justify.value)
  }

  function VoteFor(s: Replica, b: Block): Vote {
    Vote(HashOf(b), b.view, s.me, Sig(s.me, VoteMessage(b.view, HashOf(b))))
  }

  function OnProposal(s: Replica, b: Block): (Replica, Option<Vote>)
    requires s.committee.Valid()
  {
    if WillVote(s, b) then
      var stored := ApplyQc(s.(blocks := s.blocks[HashOf(b) := b]), b.justify.value);
      (stored.(votedViews := s.votedViews[b.view := HashOf(b)]), Some(VoteFor(s, b)))
    else (s, None)
  }

  predicate WillImport(s: Replica, b: Block)
    requires s.committee.Valid()
  {
    && b.parent in s.blocks
    && RightfulProposer(s.committee, b)
    && JustifyHolds(s.committee, b)
  }

  /** `try_import_block` */
  function Import(s: Replica, b: Block): (Replica, bool)
    requires s.committee.Valid()
  {
    if HashOf(b) in s.blocks then (s, true)
    else if WillImport(s, b) then (ApplyQc(s.(blocks := s.blocks[HashOf(b) := b]), b.justify.value), true)
    else (s, false)
  }

  // --- Vote collection ---

  function SigsAt(bucket: map<int, Sig>, signers: seq<int>): multiset<Sig>
    requires forall i :: 0 <= i < |signers| ==> signers[i] in bucket
  {
    if signers == [] then multiset{} else multiset{bucket[signers[0]]} + SigsAt(bucket, signers[1..])
  }

  function CertificateFrom(key: (Hash, int), bucket: map<int, Sig>): QC {
    var signers := Sorted(bucket.Keys);
    QC(key.0, key.1, signers, Agg(SigsAt(bucket, signers)))
  }

  function BucketFor<K, V>(pending: map<K, map<int, V>>, key: K): map<int, V> {
    if key in pending then pending[key] else map[]
  }

  function OnVote(s: Replica, v: Vote): (Replica, Option<QC>)
    requires s.committee.Valid()
  {
    if !VoteVerifies(v, s.committee) then (s, None)
    else
      var key := (v.hash, v.view);
      var bucket := BucketFor(s.pendingVotes, key)[v.voter := v.sig];
      if |bucket| < s.committee.QuorumSize() then (s.(pendingVotes := s.pendingVotes[key := bucket]), None)
      else
        var qc := CertificateFrom(key, bucket);
        (ApplyQc(s.(pendingVotes := s.pendingVotes - {key}), qc), Some(qc))
  }

  // --- Views ---

  function AdvanceTo(s: Replica, view: int): Replica {
    if view > s.currentView then s.(currentView := view) else s
  }

  /** `maybe_advance_view`; whether the timeout has passed is an input. */
  function MaybeAdvance(s: Replica, timedOut: bool): Replica {
    if timedOut then s.(currentView := s.currentView + 1) else s
  }

  function MakeNewView(s: Replica): NewViewMsg {
    NewViewMsg(s.currentView, s.highQc, s.me, Sig(s.me, NewViewMessage(s.currentView, s.highQc.hash, s.highQc.view)))
  }

  /** A NewView message passes its receivers' signature check exactly when its sender sits in [0, n). */
  lemma NewViewChecks(s: Replica)
    ensures NewViewVerifies(MakeNewView(s), s.committee) <==> 0 <= s.me < s.committee.n
  {
  }

  /** Assignment into a dictionary keyed by sender that remembers the order of first insertion. */
  function PutBySender(bucket: seq<NewViewMsg>, m: NewViewMsg): (r: seq<NewViewMsg>)
    ensures |bucket| <= |r| <= |bucket| + 1
    ensures forall x :: x in r ==> x == m || x in bucket
  {
    if bucket == [] then [m]
    else if bucket[0].sender == m.sender then [m] + bucket[1..]
    else [bucket[0]] + PutBySender(bucket[1..], m)
  }

  function UsableQcs(c: Committee, bucket: seq<NewViewMsg>): (r: seq<QC>)
    requires c.Valid()
    ensures forall q :: q in r <==>
      (q.hash == GENESIS || Verifies(q, c)) && exists i :: 0 <= i < |bucket| && bucket[i].highQc == q
  {
    if bucket == [] then []
    else
      var q := bucket[0].highQc;
      var rest := UsableQcs(c, bucket[1..]);
      if q.hash == GENESIS || Verifies(q, c) then [q] + rest else rest
  }

  /** The first certificate of the highest view, as `max` picks it. */
  function BestQc(qcs: seq<QC>): (r: QC)
    requires qcs != []
    ensures r in qcs && forall q :: q in qcs ==> q.view <= r.view
  {
    if |qcs| == 1 then qcs[0]
    else
      var rest := BestQc(qcs[1..]);
      if qcs[0].view >= rest.view then qcs[0] else rest
  }

  function OnNewView(s: Replica, m: NewViewMsg): (Replica, bool)
    requires s.committee.Valid()
  {
    if !NewViewVerifies(m, s.committee) then (s, false)
    else
      var earlier := if m.view in s.pendingNewViews then s.pendingNewViews[m.view] else [];
      var bucket := PutBySender(earlier, m);
      if |bucket| < s.committee.QuorumSize() then (s.(pendingNewViews := s.pendingNewViews[m.view := bucket]), false)
      else
        var cleared := s.(pendingNewViews := s.pendingNewViews - {m.view});
        var qcs := UsableQcs(s.committee, bucket);
        if qcs == [] then (cleared, false) else (ApplyQc(cleared, BestQc(qcs)), true)
  }
}
